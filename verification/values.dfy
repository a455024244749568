/** The double held in a register slot, abstracted to its IEEE 754 class, its
    sign and (for finite non-zero values) its exact magnitude. Host arithmetic
    and the libm kernels never appear here: handlers receive them as function
    parameters. The comparisons are those of C++ `<` and `>` on doubles. */
module Values {
  import opened Wrappers

  type Positive = r: real | r > 0.0 witness 1.0

  datatype Value =
    | Zero(neg: bool)
    | Normal(neg: bool, mag: Positive)
    | Subnormal(neg: bool, mag: Positive)
    | Inf(neg: bool)
    | NaN(neg: bool)

  /** std::numeric_limits<double>::quiet_NaN(): sign bit clear. */
  const QuietNaN: Value := NaN(false)

  predicate IsFinite(v: Value) {
    v.Zero? || v.Normal? || v.Subnormal?
  }

  /** The real number a finite value denotes; both zeros denote 0. */
  function Real(v: Value): real
    requires IsFinite(v)
  {
    match v
    case Zero(_) => 0.0
    case Normal(neg, m) => if neg then -(m as real) else m as real
    case Subnormal(neg, m) => if neg then -(m as real) else m as real
  }

  /** C++ `a < b` on doubles: false whenever either side is a NaN. */
  predicate Less(a: Value, b: Value) {
    if a.NaN? || b.NaN? then false
    else if a.Inf? && b.Inf? then a.neg && !b.neg
    else if a.Inf? then a.neg
    else if b.Inf? then !b.neg
    else Real(a) < Real(b)
  }

  /** The outcome of an IEEE comparison. */
  datatype Ordering = Lt | Eq | Gt | Unordered

  function Compare(a: Value, b: Value): (o: Ordering)
    ensures o == Lt <==> Less(a, b)
    ensures o == Gt <==> Less(b, a)
    ensures o == Unordered <==> a.NaN? || b.NaN?
  {
    if a.NaN? || b.NaN? then Unordered
    else if Less(a, b) then Lt
    else if Less(b, a) then Gt
    else Eq
  }

  /** Ordered values compare equal exactly when they denote the same extended real. */
  lemma EqualMeansSameNumber(a: Value, b: Value)
    requires Compare(a, b) == Eq
    ensures IsFinite(a) <==> IsFinite(b)
    ensures IsFinite(a) ==> Real(a) == Real(b)
    ensures a.Inf? ==> b == a
  {
  }

  /** `<` is a strict order on the non-NaN values. */
  lemma LessTransitive(a: Value, b: Value, c: Value)
    requires Less(a, b) && Less(b, c)
    ensures Less(a, c)
  {
  }

  /** fabs: the sign cleared, everything else kept (NaN included). A finite
      value becomes its distance from zero; a NaN stays a NaN and an
      infinity stays an infinity. */
  function Abs(v: Value): (r: Value)
    ensures !r.neg
    ensures r.(neg := v.neg) == v
    ensures r.NaN? == v.NaN? && r.Inf? == v.Inf? && r.Zero? == v.Zero?
    ensures IsFinite(v) ==> IsFinite(r) && Real(r) == (if Real(v) < 0.0 then -Real(v) else Real(v))
  {
    v.(neg := false)
  }

  /** fchs and unary minus: the sign flipped. */
  function Negate(v: Value): (r: Value)
    ensures r.neg != v.neg
    ensures r.(neg := v.neg) == v
  {
    v.(neg := !v.neg)
  }

  // ---------------------------------------------------------------------
  // Rounding of a real to an integer, one function per rounding mode.

  function Floor(x: real): (n: int)
    ensures n as real <= x < n as real + 1.0
  {
    x.Floor
  }

  function Ceil(x: real): (n: int)
    ensures n as real - 1.0 < x <= n as real
  {
    -((-x).Floor)
  }

  /** Rounding toward zero, the C++ cast from double to an integer type. */
  function Trunc(x: real): (n: int)
    ensures x >= 0.0 ==> 0.0 <= n as real <= x < n as real + 1.0
    ensures x < 0.0 ==> n as real - 1.0 < x <= n as real <= 0.0
  {
    if x >= 0.0 then Floor(x) else Ceil(x)
  }

  /** std::nearbyint under the default round-to-nearest mode: the nearest
      integer, ties going to the even neighbour. */
  function RoundHalfEven(x: real): (n: int)
    ensures -0.5 <= x - n as real <= 0.5
    ensures x - n as real == 0.5 || x - n as real == -0.5 ==> n % 2 == 0
  {
    var f := x.Floor;
    var d := x - f as real;
    if d < 0.5 then f
    else if d > 0.5 then f + 1
    else if f % 2 == 0 then f
    else f + 1
  }

  /** No integer is strictly nearer to x than the tie-to-even rounding. */
  lemma RoundHalfEvenIsNearest(x: real, m: int)
    ensures RoundHalfEven(x) as real - x <= m as real - x || x - RoundHalfEven(x) as real <= x - m as real
  {
  }

  /** Rounding is monotone: it never jumps over an integer bound. */
  lemma RoundingRespectsIntegerBounds(x: real, lo: int, hi: int)
    requires lo as real <= x <= hi as real
    ensures lo <= RoundHalfEven(x) <= hi
    ensures lo <= Floor(x) <= hi
    ensures lo <= Ceil(x) <= hi
    ensures lo <= Trunc(x) <= hi
  {
  }

  // ---------------------------------------------------------------------
  // Powers of two and the exact meaning of a binary64 bit pattern.

  function Pow2(k: int): (r: real)
    ensures r > 0.0
    decreases if k >= 0 then k else -k
  {
    if k == 0 then 1.0
    else if k > 0 then 2.0 * Pow2(k - 1)
    else Pow2(k + 1) / 2.0
  }

  lemma {:induction false} Pow2Step(k: int)
    ensures Pow2(k + 1) == 2.0 * Pow2(k)
    decreases if k >= 0 then k else -k
  {
    if k >= 0 {
    } else {
      assert Pow2(k) == Pow2(k + 1) / 2.0;
    }
  }

  function Pow2Nat(k: nat): (r: nat)
    ensures r > 0
  {
    if k == 0 then 1 else 2 * Pow2Nat(k - 1)
  }

  /** The value denoted by a binary64 bit pattern (std::bit_cast<double>). */
  function DoubleValue(bits: bv64): (v: Value)
    ensures v.NaN? <==> bits & 0x7FF0_0000_0000_0000 == 0x7FF0_0000_0000_0000 && bits & 0xF_FFFF_FFFF_FFFF != 0
    ensures v.Inf? <==> bits & 0x7FFF_FFFF_FFFF_FFFF == 0x7FF0_0000_0000_0000
    ensures v.Zero? <==> bits & 0x7FFF_FFFF_FFFF_FFFF == 0
    ensures v.Subnormal? <==> bits & 0x7FF0_0000_0000_0000 == 0 && bits & 0xF_FFFF_FFFF_FFFF != 0
    ensures v.neg <==> bits & 0x8000_0000_0000_0000 != 0
  {
    var neg := bits & 0x8000_0000_0000_0000 != 0;
    var e := (bits >> 52) & 0x7FF;
    var f := bits & 0xF_FFFF_FFFF_FFFF;
    if e == 0 && f == 0 then Zero(neg)
    else if e == 0 then Subnormal(neg, SubnormalMagnitude(f))
    else if e == 0x7FF then (if f == 0 then Inf(neg) else NaN(neg))
    else Normal(neg, NormalMagnitude(e, f))
  }

  /** f * 2^-1074 for a non-zero 52-bit fraction field. */
  function SubnormalMagnitude(f: bv64): Positive
    requires 0 < f <= 0xF_FFFF_FFFF_FFFF
  {
    PositiveProduct((f as int) as real, Pow2(-1074));
    (f as int) as real * Pow2(-1074)
  }

  /** (1 + f / 2^52) * 2^(e - 1023) for a biased exponent e in 1..2046. */
  function NormalMagnitude(e: bv64, f: bv64): Positive
    requires 0 < e < 0x7FF && f <= 0xF_FFFF_FFFF_FFFF
  {
    var significand := 1.0 + (f as int) as real / 0x10_0000_0000_0000 as real;
    PositiveProduct(significand, Pow2(e as int - 1023));
    significand * Pow2(e as int - 1023)
  }

  /** The value denoted by a binary32 bit pattern (std::bit_cast<float>),
      widened exactly to double. */
  function SingleValue(bits: bv32): (v: Value)
    ensures v.NaN? <==> bits & 0x7F80_0000 == 0x7F80_0000 && bits & 0x7F_FFFF != 0
    ensures v.Inf? <==> bits & 0x7FFF_FFFF == 0x7F80_0000
    ensures v.Zero? <==> bits & 0x7FFF_FFFF == 0
    ensures v.Subnormal? <==> bits & 0x7F80_0000 == 0 && bits & 0x7F_FFFF != 0
    ensures v.neg <==> bits & 0x8000_0000 != 0
  {
    var neg := bits & 0x8000_0000 != 0;
    var e := (bits >> 23) & 0xFF;
    var f := bits & 0x7F_FFFF;
    if e == 0 && f == 0 then Zero(neg)
    else if e == 0 then Subnormal(neg, SingleSubnormalMagnitude(f))
    else if e == 0xFF then (if f == 0 then Inf(neg) else NaN(neg))
    else Normal(neg, SingleNormalMagnitude(e, f))
  }

  /** f * 2^-149 for a non-zero 23-bit fraction field. */
  function SingleSubnormalMagnitude(f: bv32): Positive
    requires 0 < f <= 0x7F_FFFF
  {
    PositiveProduct((f as int) as real, Pow2(-149));
    (f as int) as real * Pow2(-149)
  }

  /** (1 + f / 2^23) * 2^(e - 127) for a biased exponent e in 1..254. */
  function SingleNormalMagnitude(e: bv32, f: bv32): Positive
    requires 0 < e < 0xFF && f <= 0x7F_FFFF
  {
    var significand := 1.0 + (f as int) as real / 0x80_0000 as real;
    PositiveProduct(significand, Pow2(e as int - 127));
    significand * Pow2(e as int - 127)
  }

  lemma PositiveProduct(a: real, b: real)
    requires a > 0.0 && b > 0.0
    ensures a * b > 0.0
  {
  }

  // ---------------------------------------------------------------------
  // Integer to double conversion (static_cast<double> of an integer).

  /** Number of binary digits of n; 0 for 0. */
  function BitLength(n: nat): (b: nat)
    ensures n == 0 <==> b == 0
    ensures n > 0 ==> Pow2Nat(b - 1) <= n < Pow2Nat(b)
    ensures n < Pow2Nat(b)
  {
    if n == 0 then 0 else 1 + BitLength(n / 2)
  }

  /** The magnitude a double holds after converting the integer n under
      round-to-nearest-even: exact below 2^53, otherwise rounded to 53
      significant bits. */
  function RoundToDouble(n: nat): (r: nat)
    ensures n < Pow2Nat(53) ==> r == n
    ensures r == 0 <==> n == 0
  {
    if n < Pow2Nat(53) then n
    else
      BitLengthAbove(n, 53);
      var k := BitLength(n) - 53;
      var unit := Pow2Nat(k);
      var q := n / unit;
      var rest := n % unit;
      var half := unit / 2;
      assert q > 0 by { RoundToDoubleHead(n, k); }
      var rounded := if rest > half || (rest == half && q % 2 == 1) then q + 1 else q;
      MulPositive(rounded, unit);
      rounded * unit
  }

  lemma RoundToDoubleHead(n: nat, k: nat)
    requires n >= Pow2Nat(53)
    requires k == BitLength(n) - 53
    ensures n / Pow2Nat(k) > 0
  {
    var b := BitLength(n);
    Pow2NatMonotone(k, b - 1);
    DivisorAtMost(n, Pow2Nat(k));
  }

  lemma MulPositive(a: nat, b: nat)
    requires a > 0 && b > 0
    ensures a * b > 0
  {
  }

  lemma DivisorAtMost(n: nat, d: nat)
    requires 0 < d <= n
    ensures n / d > 0
  {
  }

  /** A number of at least 2^k has more than k binary digits. */
  lemma BitLengthAbove(n: nat, k: nat)
    requires n >= Pow2Nat(k)
    ensures BitLength(n) > k
  {
    var b := BitLength(n);
    if b <= k {
      Pow2NatMonotone(b, k);
    }
  }

  lemma {:induction false} Pow2NatMonotone(a: nat, b: nat)
    requires a <= b
    ensures Pow2Nat(a) <= Pow2Nat(b)
    decreases b
  {
    if a < b {
      Pow2NatMonotone(a, b - 1);
    }
  }

  /** The C++ integer types handlers take and return. */
  type Int16 = n: int | -0x8000 <= n < 0x8000
  type Int32 = n: int | -0x8000_0000 <= n < 0x8000_0000
  type Int64 = n: int | -0x8000_0000_0000_0000 <= n < 0x8000_0000_0000_0000

  /** The value of static_cast<double>(n) for an integer n. */
  function IntToValue(n: int): (v: Value)
    ensures v.Zero? <==> n == 0
    ensures v.Normal? <==> n != 0
    ensures v.Zero? ==> !v.neg
    ensures v.Normal? ==> v.neg == (n < 0)
    ensures -0x20_0000_0000_0000 < n < 0x20_0000_0000_0000 ==> IsFinite(v) && Real(v) == n as real
  {
    if n == 0 then Zero(false)
    else
      var m := if n < 0 then -n else n;
      assert Pow2Nat(53) == 0x20_0000_0000_0000 by { Pow2Nat53(); }
      Normal(n < 0, RoundToDouble(m) as real)
  }

  /** static_cast<int>(v): rounds toward zero. A NaN, an infinity or a
      value whose truncation int cannot hold is undefined behaviour, None. */
  function CastToInt32(v: Value): (r: Option<Int32>)
    ensures r.Some? ==> IsFinite(v) && r.value as real - 1.0 < Real(v) < r.value as real + 1.0
    ensures r.Some? && Real(v) >= 0.0 ==> r.value >= 0 && r.value as real <= Real(v)
    ensures r.Some? && Real(v) < 0.0 ==> r.value <= 0 && r.value as real >= Real(v)
    ensures r.Some? <==> IsFinite(v) && -0x8000_0001 as real < Real(v) < 0x8000_0000 as real
  {
    if !IsFinite(v) then None
    else
      var n := Trunc(Real(v));
      if -0x8000_0000 <= n < 0x8000_0000 then Some(n) else None
  }

  /** Casting the double an int converts to gives the int back. */
  lemma CastIntRoundTrip(n: Int32)
    ensures CastToInt32(IntToValue(n)) == Some(n)
  {
    assert Real(IntToValue(n)) == n as real;
  }

  lemma Pow2Nat53()
    ensures Pow2Nat(53) == 0x20_0000_0000_0000
  {
    assert Pow2Nat(10) == 1024;
    assert Pow2Nat(20) == 1024 * 1024;
    assert Pow2Nat(40) == Pow2Nat(20) * Pow2Nat(20) by { Pow2NatAdd(20, 20); }
    assert Pow2Nat(53) == Pow2Nat(40) * Pow2Nat(13) by { Pow2NatAdd(40, 13); }
  }

  /** static_cast<double>(INT64_MAX) is 2^63: the 63-bit integer needs ten
      more bits than a double holds and rounds up. */
  lemma Int64MaxRoundsUp()
    ensures IntToValue(0x7FFF_FFFF_FFFF_FFFF) == Normal(false, 0x8000_0000_0000_0000 as real)
  {
    var n := 0x7FFF_FFFF_FFFF_FFFF;
    Pow2Nat53();
    Pow2NatAdd(53, 10);
    Pow2NatAdd(53, 9);
    assert Pow2Nat(10) == 1024 && Pow2Nat(9) == 512;
    BitLengthIs(n, 63);
    assert RoundToDouble(n) == 0x8000_0000_0000_0000;
  }

  /** static_cast<double>(INT64_MIN) is -2^63 exactly. */
  lemma Int64MinExact()
    ensures IntToValue(-0x8000_0000_0000_0000) == Normal(true, 0x8000_0000_0000_0000 as real)
  {
    var n := 0x8000_0000_0000_0000;
    Pow2Nat53();
    Pow2NatAdd(53, 11);
    Pow2NatAdd(53, 10);
    assert Pow2Nat(11) == 2048 && Pow2Nat(10) == 1024;
    BitLengthIs(n, 64);
    assert RoundToDouble(n) == n;
  }

  /** The binary length of n is the b with 2^(b-1) <= n < 2^b. */
  lemma BitLengthIs(n: nat, b: nat)
    requires b > 0 && Pow2Nat(b - 1) <= n < Pow2Nat(b)
    ensures BitLength(n) == b
  {
    var c := BitLength(n);
    if c > b {
      Pow2NatMonotone(b, c - 1);
    } else if c < b {
      Pow2NatMonotone(c, b - 1);
    }
  }

  /** A larger exponent gives a larger power of two. */
  lemma {:induction false} Pow2Increasing(a: int, b: int)
    requires a < b
    ensures Pow2(a) < Pow2(b)
    decreases b - a
  {
    Pow2Step(a);
    if a + 1 < b {
      Pow2Increasing(a + 1, b);
    }
  }

  lemma {:induction false} Pow2NatAdd(a: nat, b: nat)
    ensures Pow2Nat(a + b) == Pow2Nat(a) * Pow2Nat(b)
    decreases b
  {
    if b > 0 {
      var c := b - 1;
      Pow2NatAdd(a, c);
      Pow2NatNext(a + c, a + b);
      Pow2NatNext(c, b);
      Twice(Pow2Nat(a + b), Pow2Nat(a + c), Pow2Nat(a), Pow2Nat(c), Pow2Nat(b));
    }
  }

  lemma Pow2NatNext(k: nat, next: nat)
    requires next == k + 1
    ensures Pow2Nat(next) == 2 * Pow2Nat(k)
  {
  }

  lemma Twice(whole: int, half: int, x: int, y: int, y2: int)
    requires whole == 2 * half && y2 == 2 * y && half == x * y
    ensures whole == x * y2
  {
  }
}
