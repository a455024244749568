/** The 80-bit packed BCD integer of fbld and fbstp (rosettaRuntime/X87.cpp,
    BCD2Double and x87_fbstp): bytes 0-8 hold eighteen decimal digits, two
    per byte with the less significant digit in the low nibble; the low
    nibble of byte 9 is read as a nineteenth digit and bit 7 of byte 9 is
    the sign. Digits are naturals here; the source's uint64_t accumulators
    are written with their wrap-around and shown never to wrap. */
module Bcd {
  import opened Values

  type Bytes10 = s: seq<bv8> | |s| == 10 witness [0, 0, 0, 0, 0, 0, 0, 0, 0, 0]

  const TwoTo64: nat := 0x1_0000_0000_0000_0000

  function Pow10(k: nat): (r: nat)
    ensures r >= 1
  {
    if k == 0 then 1 else 10 * Pow10(k - 1)
  }

  function Low(b: bv8): (d: nat)
    ensures d < 16
  {
    (b & 0x0F) as nat
  }

  function High(b: bv8): (d: nat)
    ensures d < 16
  {
    ((b >> 4) & 0x0F) as nat
  }

  /** Digit k of the packed integer, k = 0 the least significant: the low
      nibble of byte k / 2 for even k, the high nibble for odd k. Digit 18
      is the low nibble of byte 9. */
  function Nibble(bcd: Bytes10, k: nat): (d: nat)
    requires k < 19
    ensures d < 16
  {
    if k % 2 == 0 then Low(bcd[k / 2]) else High(bcd[k / 2])
  }

  /** The weighted sum of the n least significant digits. */
  function Partial(bcd: Bytes10, n: nat): nat
    requires n <= 19
  {
    if n == 0 then 0
    else
      NonNegative(Pow10(n - 1), Nibble(bcd, n - 1));
      Partial(bcd, n - 1) + Pow10(n - 1) * Nibble(bcd, n - 1)
  }

  lemma NonNegative(a: nat, b: nat)
    ensures a * b >= 0
  {
  }

  /** The magnitude BCD2Double accumulates: the sum of digit k times 10^k
      over all nineteen digits. Nibbles above 9 are weighted as they are. */
  function Magnitude(bcd: Bytes10): nat {
    Partial(bcd, 19)
  }

  predicate Negative(bcd: Bytes10) {
    bcd[9] & 0x80 != 0
  }

  // ---------------------------------------------------------------------
  // Decoding (BCD2Double)

  /** Even with every nibble at 15 the sum stays below 2^64: 9 * Partial(n)
      is at most 15 * (10^n - 1). */
  lemma {:induction false} PartialBound(bcd: Bytes10, n: nat)
    requires n <= 19
    ensures 9 * Partial(bcd, n) <= 15 * (Pow10(n) - 1)
  {
    if n > 0 {
      PartialBound(bcd, n - 1);
      BoundStep(Partial(bcd, n - 1), Pow10(n - 1), Nibble(bcd, n - 1));
    }
  }

  lemma BoundStep(prev: nat, p: nat, d: nat)
    requires 9 * prev <= 15 * (p - 1) && d < 16
    ensures 9 * (prev + p * d) <= 15 * (10 * p - 1)
  {
    MulBound(p, d, 15);
  }

  lemma MulBound(c: nat, a: nat, b: nat)
    requires a <= b
    ensures c * a <= c * b
  {
  }

  lemma Pow10Of19()
    ensures Pow10(19) == 10_000_000_000_000_000_000
  {
    assert Pow10(5) == 100_000;
    assert Pow10(10) == 10_000_000_000 by { Pow10Add(5, 5); }
    assert Pow10(19) == Pow10(10) * Pow10(9) by { Pow10Add(10, 9); }
  }

  lemma {:induction false} Pow10Add(a: nat, b: nat)
    ensures Pow10(a + b) == Pow10(a) * Pow10(b)
    decreases b
  {
    if b > 0 {
      Pow10Add(a, b - 1);
      assert Pow10(a + b) == 10 * Pow10(a + b - 1);
    }
  }

  lemma {:induction false} Pow10Monotone(a: nat, b: nat)
    requires a <= b
    ensures Pow10(a) <= Pow10(b)
    decreases b
  {
    if a < b {
      Pow10Monotone(a, b - 1);
    }
  }

  /** No partial sum and no multiplier of the loop reaches 2^64. */
  lemma NoWrap(bcd: Bytes10, n: nat)
    requires n <= 19
    ensures Partial(bcd, n) < TwoTo64
    ensures Pow10(n) < TwoTo64
  {
    PartialBound(bcd, n);
    Pow10Monotone(n, 19);
    Pow10Of19();
  }

  /** The source loop: the multiplier and the sum are uint64_t, so each step
      is taken modulo 2^64; the invariants show the reduction never bites. */
  method Accumulate(bcd: Bytes10) returns (tmp: nat)
    ensures tmp == Magnitude(bcd)
    ensures tmp < TwoTo64
  {
    tmp := 0;
    var mult: nat := 1;
    var i := 0;
    while i < 9
      invariant 0 <= i <= 9
      invariant mult == Pow10(2 * i)
      invariant tmp == Partial(bcd, 2 * i)
    {
      tmp, mult := AccumulateByte(bcd, i, tmp, mult);
      i := i + 1;
    }
    LastStep(bcd);
    Fits(Magnitude(bcd));
    tmp := (tmp + mult * Low(bcd[9])) % TwoTo64;
  }

  /** One round of the loop in uint64_t arithmetic: byte i's two digits
      added at weights 10^(2i) and 10^(2i+1). */
  method AccumulateByte(bcd: Bytes10, i: nat, tmp: nat, mult: nat) returns (tmp': nat, mult': nat)
    requires i < 9 && mult == Pow10(2 * i) && tmp == Partial(bcd, 2 * i)
    ensures mult' == Pow10(2 * i + 2) && tmp' == Partial(bcd, 2 * i + 2)
  {
    var piece := bcd[i];
    ByteStep(bcd, i);
    AddDigit(tmp, mult, Low(piece), Partial(bcd, 2 * i + 1), Pow10(2 * i + 1));
    var t := (tmp + mult * Low(piece)) % TwoTo64;
    var m := (mult * 10) % TwoTo64;
    AddDigit(t, m, High(piece), Partial(bcd, 2 * i + 2), Pow10(2 * i + 2));
    tmp' := (t + m * High(piece)) % TwoTo64;
    mult' := (m * 10) % TwoTo64;
  }

  /** One round of the loop on byte i adds its two digits at their weights,
      and nothing it computes reaches 2^64. */
  lemma ByteStep(bcd: Bytes10, i: nat)
    requires i < 9
    ensures Partial(bcd, 2 * i) + Pow10(2 * i) * Low(bcd[i]) == Partial(bcd, 2 * i + 1)
    ensures Pow10(2 * i) * 10 == Pow10(2 * i + 1)
    ensures Partial(bcd, 2 * i + 1) + Pow10(2 * i + 1) * High(bcd[i]) == Partial(bcd, 2 * i + 2)
    ensures Pow10(2 * i + 1) * 10 == Pow10(2 * i + 2)
    ensures Partial(bcd, 2 * i + 1) < TwoTo64 && Partial(bcd, 2 * i + 2) < TwoTo64
    ensures Pow10(2 * i + 1) < TwoTo64 && Pow10(2 * i + 2) < TwoTo64
  {
    NibblesOfByte(bcd, i);
    DigitStep(bcd, 2 * i, 2 * i + 1);
    DigitStep(bcd, 2 * i + 1, 2 * i + 2);
  }

  /** Adding digit n at weight 10^n extends the partial sum by one digit. */
  lemma DigitStep(bcd: Bytes10, n: nat, next: nat)
    requires n < 19 && next == n + 1
    ensures Partial(bcd, n) + Pow10(n) * Nibble(bcd, n) == Partial(bcd, next)
    ensures Pow10(n) * 10 == Pow10(next)
    ensures Partial(bcd, next) < TwoTo64 && Pow10(next) < TwoTo64
  {
    NoWrap(bcd, next);
  }

  /** The final step on the low nibble of byte 9. */
  lemma LastStep(bcd: Bytes10)
    ensures Partial(bcd, 18) + Pow10(18) * Low(bcd[9]) == Magnitude(bcd)
    ensures Magnitude(bcd) < TwoTo64
  {
    NoWrap(bcd, 19);
    assert Nibble(bcd, 18) == Low(bcd[9]);
  }

  lemma NibblesOfByte(bcd: Bytes10, i: nat)
    requires i < 9
    ensures Nibble(bcd, 2 * i) == Low(bcd[i])
    ensures Nibble(bcd, 2 * i + 1) == High(bcd[i])
  {
  }

  /** One digit step of the loop in uint64_t arithmetic equals the exact
      step when the exact results stay below 2^64. */
  lemma AddDigit(sum: nat, mult: nat, d: nat, next: nat, nextMult: nat)
    requires sum + mult * d == next && next < TwoTo64
    requires mult * 10 == nextMult && nextMult < TwoTo64
    ensures (sum + mult * d) % TwoTo64 == next
    ensures (mult * 10) % TwoTo64 == nextMult
  {
    Fits(next);
    Fits(nextMult);
  }

  lemma Fits(x: nat)
    requires x < TwoTo64
    ensures x % TwoTo64 == x
  {
  }

  /** The decoded double: static_cast<double> of the magnitude, negated when
      the sign bit is set (so a negative zero magnitude gives -0.0). */
  function BcdValue(bcd: Bytes10): (v: Value)
    ensures v.neg == Negative(bcd)
    ensures v.Zero? <==> Magnitude(bcd) == 0
    ensures Magnitude(bcd) < Pow2Nat(53) ==>
      IsFinite(v) && Real(v) == (if Negative(bcd) then -(Magnitude(bcd) as real) else Magnitude(bcd) as real)
  {
    var value := IntToValue(Magnitude(bcd));
    Pow2Nat53();
    if Negative(bcd) then Negate(value) else value
  }

  /** BCD2Double: the accumulation loop followed by the conversion. */
  method Bcd2Double(bcd: Bytes10) returns (v: Value)
    ensures v == BcdValue(bcd)
  {
    var tmp := Accumulate(bcd);
    var value := IntToValue(tmp);
    if bcd[9] & 0x80 != 0 {
      value := Negate(value);
    }
    v := value;
  }

  // ---------------------------------------------------------------------
  // Encoding (x87_fbstp)

  /** Decimal digit k of n. */
  function Digit(n: nat, k: nat): (d: nat)
    ensures d < 10
  {
    (n / Pow10(k)) % 10
  }

  /** One packed byte: the low digit in bits 0-3, the high digit in 4-7. */
  function Pair(lo: nat, hi: nat): (b: bv8)
    requires lo < 10 && hi < 10
    ensures Low(b) == lo && High(b) == hi
  {
    PairNibbles(lo as bv8, hi as bv8);
    (lo as bv8) | ((hi as bv8) << 4)
  }

  lemma PairNibbles(lo: bv8, hi: bv8)
    requires lo < 10 && hi < 10
    ensures (lo | (hi << 4)) & 0x0F == lo
    ensures ((lo | (hi << 4)) >> 4) & 0x0F == hi
  {
  }

  /** The nineteen least significant digits of n, packed without a sign:
      digits 2i and 2i+1 in byte i, digit 18 alone in byte 9. */
  function Packed(n: nat): (b: Bytes10)
    ensures forall i :: 0 <= i < 9 ==> b[i] == Pair(Digit(n, 2 * i), Digit(n, 2 * i + 1))
    ensures b[9] == Digit(n, 18) as bv8
  {
    seq(10, i requires 0 <= i => PackedByte(n, i))
  }

  function PackedByte(n: nat, i: nat): bv8 {
    if i < 9 then Pair(Digit(n, 2 * i), Digit(n, 2 * i + 1)) else Digit(n, 18) as bv8
  }

  /** Every digit of the packed bytes is the matching decimal digit of n,
      and the sign bit is clear. */
  lemma PackedDigits(n: nat, k: nat)
    requires k < 19
    ensures Nibble(Packed(n), k) == Digit(n, k)
    ensures !Negative(Packed(n))
  {
    PackedLast(n);
    if k < 18 {
      var i := k / 2;
      PackedPair(n, i);
      assert k == 2 * i || k == 2 * i + 1;
    }
  }

  lemma PackedPair(n: nat, i: nat)
    requires i < 9
    ensures Nibble(Packed(n), 2 * i) == Digit(n, 2 * i)
    ensures Nibble(Packed(n), 2 * i + 1) == Digit(n, 2 * i + 1)
  {
    NibblesOfByte(Packed(n), i);
  }

  lemma PackedLast(n: nat)
    ensures Nibble(Packed(n), 18) == Digit(n, 18)
    ensures !Negative(Packed(n))
  {
    var b := Packed(n);
    SmallByte(Digit(n, 18), b[9]);
  }

  lemma SmallByte(d: nat, b: bv8)
    requires d < 10 && b == d as bv8
    ensures Low(b) == d && b & 0x80 == 0
  {
    SmallBits(b);
  }

  lemma SmallBits(b: bv8)
    requires b < 10
    ensures b & 0x0F == b && b & 0x80 == 0
  {
  }

  /** The source's digit loop on the uint64_t integer part: nine rounds of
      two `% 10` and `/ 10` steps, then `% 10` of what is left into byte 9. */
  method PackDigits(n: nat) returns (bcd: Bytes10)
    ensures bcd == Packed(n)
  {
    ghost var target := Packed(n);
    bcd := [0, 0, 0, 0, 0, 0, 0, 0, 0, 0];
    var integerPart := n;
    var i := 0;
    while i < 9
      invariant 0 <= i <= 9
      invariant integerPart == n / Pow10(2 * i)
      invariant forall j :: 0 <= j < i ==> bcd[j] == target[j]
    {
      var pair;
      pair, integerPart := PackPair(n, i, integerPart);
      bcd := bcd[i := pair];
      i := i + 1;
    }
    bcd := PackLast(n, bcd, integerPart);
  }

  /** The last step: `% 10` of what is left into byte 9. */
  method PackLast(n: nat, bcd: Bytes10, integerPart: nat) returns (r: Bytes10)
    requires integerPart == n / Pow10(18)
    requires forall j :: 0 <= j < 9 ==> bcd[j] == Packed(n)[j]
    ensures r == Packed(n)
  {
    r := bcd[9 := (integerPart % 10) as bv8];
    PackedEqual(n, r);
  }

  /** One round of the digit loop: two `% 10` and `/ 10` steps on
      n / 10^(2i) give byte i of the packed digits. */
  method PackPair(n: nat, i: nat, integerPart: nat) returns (pair: bv8, rest: nat)
    requires i < 9 && integerPart == n / Pow10(2 * i)
    ensures pair == Packed(n)[i]
    ensures rest == n / Pow10(2 * i + 2)
  {
    PairStep(n, i);
    var digit1 := integerPart % 10;
    var tens := integerPart / 10;
    var digit2 := tens % 10;
    rest := tens / 10;
    pair := Pair(digit1, digit2);
  }

  lemma PackedEqual(n: nat, bcd: Bytes10)
    requires forall j :: 0 <= j < 9 ==> bcd[j] == Packed(n)[j]
    requires bcd[9] == Digit(n, 18) as bv8
    ensures bcd == Packed(n)
  {
    assert forall j :: 0 <= j < 10 ==> bcd[j] == Packed(n)[j];
  }

  /** Two rounds of `% 10` and `/ 10` on n / 10^(2i) yield digits 2i and
      2i + 1 and leave n / 10^(2i + 2). */
  lemma PairStep(n: nat, i: nat)
    ensures (n / Pow10(2 * i)) % 10 == Digit(n, 2 * i)
    ensures ((n / Pow10(2 * i)) / 10) % 10 == Digit(n, 2 * i + 1)
    ensures ((n / Pow10(2 * i)) / 10) / 10 == n / Pow10(2 * i + 2)
  {
    DivDiv(n, Pow10(2 * i));
    DivDiv(n, Pow10(2 * i + 1));
  }

  /** Dividing by d and then by 10 is dividing by 10 d; the remainder
      modulo 10 d is the remainder modulo d plus d times the next digit. */
  lemma DivDiv(n: nat, d: nat)
    requires d >= 1
    ensures (n / d) / 10 == n / (d * 10)
    ensures n % (d * 10) == n % d + d * ((n / d) % 10)
  {
    var q := n / d;
    var r := n % d;
    var q2 := q / 10;
    var r2 := q % 10;
    assert n == d * 10 * q2 + (d * r2 + r);
    assert 0 <= d * r2 + r < d * 10 by { MulBound(d, r2, 9); }
    UniqueDivision(n, d * 10, q2, d * r2 + r);
  }

  lemma UniqueDivision(n: int, d: int, q: int, r: int)
    requires d > 0 && n == d * q + r && 0 <= r < d
    ensures n / d == q && n % d == r
  {
    var q0, r0 := n / d, n % d;
    assert d * (q - q0) == r0 - r;
    SmallMultiple(d, q - q0);
  }

  /** The only multiple of d strictly between -d and d is 0. */
  lemma SmallMultiple(d: int, x: int)
    requires d > 0 && -d < d * x < d
    ensures x == 0
  {
    MultipleBounds(d, x);
  }

  /** A non-zero multiple of d is at least d away from 0. */
  lemma MultipleBounds(d: int, x: int)
    requires d > 0
    ensures x >= 1 ==> d * x >= d
    ensures x <= -1 ==> d * x <= -d
  {
    if x >= 1 {
      assert d * x == d + d * (x - 1);
    } else if x <= -1 {
      assert d * x == -d + d * (x + 1);
    }
  }

  /** The digits of Packed(n), weighted, sum to n modulo 10^m. */
  lemma {:induction false} PackedPartial(n: nat, m: nat)
    requires m <= 19
    ensures Partial(Packed(n), m) == n % Pow10(m)
  {
    if m > 0 {
      PackedPartial(n, m - 1);
      PackedDigits(n, m - 1);
      ModStep(n, Pow10(m - 1), Partial(Packed(n), m - 1), Nibble(Packed(n), m - 1));
    }
  }

  lemma ModStep(n: nat, p: nat, low: nat, d: nat)
    requires p >= 1 && low == n % p && d == (n / p) % 10
    ensures low + p * d == n % (10 * p)
  {
    DivDiv(n, p);
    assert p * 10 == 10 * p;
  }

  /** Packing and then decoding keeps the nineteen low decimal digits. */
  lemma DecodePacked(n: nat)
    ensures Magnitude(Packed(n)) == n % Pow10(19)
    ensures n < Pow10(19) ==> Magnitude(Packed(n)) == n
  {
    PackedPartial(n, 19);
    if n < Pow10(19) {
      UniqueDivision(n, Pow10(19), 0, n);
    }
  }

  // ---------------------------------------------------------------------
  // x87_fbstp's conversion

  /** The threshold of fbstp's overflow test. The literal 999999999999999999.0
      is not a double; it rounds to the double 10^18, which is what the
      comparison uses. */
  const SaturationBound: nat := 1_000_000_000_000_000_000

  /** The saturated digits: bytes 0-8 set to 0x99 and byte 9 to 0x09. */
  const Saturated: Bytes10 := [0x99, 0x99, 0x99, 0x99, 0x99, 0x99, 0x99, 0x99, 0x99, 0x09]

  const Cleared: Bytes10 := [0, 0, 0, 0, 0, 0, 0, 0, 0, 0]

  /** Bit 7 of byte 9 ORed in for a negative sign. */
  function WithSign(b: Bytes10, neg: bool): Bytes10 {
    if neg then b[9 := b[9] | 0x80] else b
  }

  /** trunc(fabs(x)) of a finite value, an integer. */
  function IntegerPart(v: Value): (n: nat)
    requires IsFinite(v)
    ensures v.Zero? ==> n == 0
    ensures !v.Zero? ==> n == Floor(v.mag)
  {
    Trunc(Real(Abs(v)))
  }

  /** x87_fbstp's conversion of ST(0): NaN and infinity give zero digits;
      an integer part above the threshold saturates; otherwise the digits of
      the integer part. The sign bit is signbit(x) in every case. */
  function EncodeBcd(v: Value): (b: Bytes10)
    ensures Negative(b) == v.neg
  {
    SignBit(Cleared[9]);
    SignBit(Saturated[9]);
    if v.NaN? || v.Inf? then WithSign(Cleared, v.neg)
    else if IntegerPart(v) > SaturationBound then WithSign(Saturated, v.neg)
    else
      PackedLast(IntegerPart(v));
      SignBit(Packed(IntegerPart(v))[9]);
      WithSign(Packed(IntegerPart(v)), v.neg)
  }

  lemma SignBit(b: bv8)
    ensures (b | 0x80) & 0x80 != 0
    ensures (b | 0x80) & 0x0F == b & 0x0F
  {
  }

  /** The sign bit does not disturb any digit. */
  lemma SignKeepsDigits(b: Bytes10, neg: bool, m: nat)
    requires m <= 19
    ensures Partial(WithSign(b, neg), m) == Partial(b, m)
  {
    SignBit(b[9]);
    assert forall k :: 0 <= k < 19 ==> Nibble(WithSign(b, neg), k) == Nibble(b, k);
    SameDigits(WithSign(b, neg), b, m);
  }

  lemma {:induction false} SameDigits(a: Bytes10, b: Bytes10, m: nat)
    requires m <= 19
    requires forall k :: 0 <= k < 19 ==> Nibble(a, k) == Nibble(b, k)
    ensures Partial(a, m) == Partial(b, m)
  {
    if m > 0 {
      SameDigits(a, b, m - 1);
    }
  }

  /** With every digit equal to c the sum is c * (10^m - 1) / 9. */
  lemma {:induction false} ConstantDigits(b: Bytes10, c: nat, m: nat)
    requires m <= 19
    requires forall k :: 0 <= k < 19 ==> Nibble(b, k) == c
    ensures 9 * Partial(b, m) == c * (Pow10(m) - 1)
  {
    if m > 0 {
      var k := m - 1;
      ConstantDigits(b, c, k);
      PartialNext(b, k, m);
      Pow10Next(k, m);
      ConstantStep(Partial(b, k), Pow10(k), c, Partial(b, m), Pow10(m));
    }
  }

  /** Partial one digit further on. */
  lemma PartialNext(b: Bytes10, k: nat, next: nat)
    requires k < 19 && next == k + 1
    ensures Partial(b, next) == Partial(b, k) + Pow10(k) * Nibble(b, k)
  {
  }

  lemma Pow10Next(k: nat, next: nat)
    requires next == k + 1
    ensures Pow10(next) == 10 * Pow10(k)
  {
  }

  lemma ConstantStep(prev: nat, p: nat, c: nat, cur: nat, pnext: nat)
    requires p >= 1 && 9 * prev == c * (p - 1)
    requires cur == prev + p * c && pnext == 10 * p
    ensures 9 * cur == c * (pnext - 1)
  {
  }

  lemma SaturatedDigits()
    ensures forall k :: 0 <= k < 19 ==> Nibble(Saturated, k) == 9
  {
  }

  lemma ClearedDigits()
    ensures forall k :: 0 <= k < 19 ==> Nibble(Cleared, k) == 0
  {
  }

  /** NaN and infinity store a zero magnitude, a saturated integer part
      stores the nineteen nines 10^19 - 1, and any integer part up to the
      threshold is stored exactly; the sign is signbit(x) throughout. */
  lemma EncodeBcdMagnitude(v: Value)
    ensures v.NaN? || v.Inf? ==> Magnitude(EncodeBcd(v)) == 0
    ensures IsFinite(v) && IntegerPart(v) > SaturationBound ==> Magnitude(EncodeBcd(v)) == Pow10(19) - 1
    ensures IsFinite(v) && IntegerPart(v) <= SaturationBound ==> Magnitude(EncodeBcd(v)) == IntegerPart(v)
  {
    var b := EncodeBcd(v);
    if v.NaN? || v.Inf? {
      EncodedSpecial(v, b);
    } else if IntegerPart(v) > SaturationBound {
      EncodedSaturated(v, b);
    } else {
      EncodedExact(v, b);
    }
  }

  lemma EncodedSpecial(v: Value, b: Bytes10)
    requires (v.NaN? || v.Inf?) && b == EncodeBcd(v)
    ensures Magnitude(b) == 0
  {
    ClearedMagnitude(v.neg);
  }

  lemma EncodedSaturated(v: Value, b: Bytes10)
    requires IsFinite(v) && IntegerPart(v) > SaturationBound && b == EncodeBcd(v)
    ensures Magnitude(b) == Pow10(19) - 1
  {
    SaturatedMagnitude(v.neg);
  }

  lemma EncodedExact(v: Value, b: Bytes10)
    requires IsFinite(v) && IntegerPart(v) <= SaturationBound && b == EncodeBcd(v)
    ensures Magnitude(b) == IntegerPart(v)
  {
    PackedMagnitude(IntegerPart(v), v.neg);
  }

  lemma ClearedMagnitude(neg: bool)
    ensures Magnitude(WithSign(Cleared, neg)) == 0
  {
    ClearedDigits();
    ConstantMagnitude(Cleared, 0, neg);
  }

  lemma SaturatedMagnitude(neg: bool)
    ensures Magnitude(WithSign(Saturated, neg)) == Pow10(19) - 1
  {
    SaturatedDigits();
    ConstantMagnitude(Saturated, 9, neg);
  }

  lemma ConstantMagnitude(b: Bytes10, c: nat, neg: bool)
    requires forall k :: 0 <= k < 19 ==> Nibble(b, k) == c
    ensures 9 * Magnitude(WithSign(b, neg)) == c * (Pow10(19) - 1)
  {
    SignKeepsDigits(b, neg, 19);
    ConstantDigits(b, c, 19);
  }

  lemma PackedMagnitude(n: nat, neg: bool)
    requires n <= SaturationBound
    ensures Magnitude(WithSign(Packed(n), neg)) == n
  {
    SignKeepsDigits(Packed(n), neg, 19);
    Pow10Of19();
    DecodePacked(n);
  }

  /** fbstp then fbld: a finite value whose integer part is at most 10^18
      and below 2^53 comes back as its truncation toward zero, with its
      sign. */
  lemma StoreThenLoad(v: Value)
    requires IsFinite(v) && IntegerPart(v) <= SaturationBound && IntegerPart(v) < Pow2Nat(53)
    ensures BcdValue(EncodeBcd(v)).neg == v.neg
    ensures IsFinite(BcdValue(EncodeBcd(v)))
    ensures Real(BcdValue(EncodeBcd(v))) == Trunc(Real(v)) as real
  {
    EncodeBcdMagnitude(v);
    TruncIsSignedIntegerPart(v);
  }

  /** Rounding a finite value toward zero gives its integer part, signed. */
  lemma TruncIsSignedIntegerPart(v: Value)
    requires IsFinite(v)
    ensures Trunc(Real(v)) == (if v.neg then -(IntegerPart(v) as int) else IntegerPart(v))
  {
  }

  // ---------------------------------------------------------------------
  // Valid packed BCD survives fbld then fbstp

  /** Every digit nibble is a decimal digit and bits 4-6 of byte 9 are
      clear. */
  predicate ValidBcd(bcd: Bytes10) {
    (forall k :: 0 <= k < 19 ==> Nibble(bcd, k) <= 9) && bcd[9] & 0x70 == 0
  }

  /** The digits from k upward read as a number: digit k plus ten times the
      rest. */
  function Upper(bcd: Bytes10, k: nat): nat
    requires k <= 19
    decreases 19 - k
  {
    if k == 19 then 0 else Nibble(bcd, k) + 10 * Upper(bcd, k + 1)
  }

  /** The low m digits plus 10^m times the digits above them make the whole
      magnitude. */
  lemma {:induction false} SplitAt(bcd: Bytes10, m: nat)
    requires m <= 19
    ensures Partial(bcd, m) + Pow10(m) * Upper(bcd, m) == Magnitude(bcd)
    decreases 19 - m
  {
    if m < 19 {
      SplitAt(bcd, m + 1);
      LowerSplit(bcd, m, m + 1);
    } else {
      NoneAbove(Partial(bcd, m), Pow10(m), Upper(bcd, m));
    }
  }

  lemma NoneAbove(low: nat, p: nat, u: nat)
    requires u == 0
    ensures low + p * u == low
  {
  }

  lemma LowerSplit(bcd: Bytes10, m: nat, next: nat)
    requires m < 19 && next == m + 1
    requires Partial(bcd, next) + Pow10(next) * Upper(bcd, next) == Magnitude(bcd)
    ensures Partial(bcd, m) + Pow10(m) * Upper(bcd, m) == Magnitude(bcd)
  {
    UpperStep(bcd, m, next);
    SplitStep(Partial(bcd, m), Pow10(m), Nibble(bcd, m), Upper(bcd, m), Upper(bcd, next), Magnitude(bcd));
  }

  lemma SplitStep(low: nat, p: nat, d: nat, up: nat, u: nat, whole: nat)
    requires up == d + 10 * u
    requires (low + p * d) + (10 * p) * u == whole
    ensures low + p * up == whole
  {
  }

  /** Shifting a valid magnitude right by k digits leaves the digits from k
      upward. */
  lemma {:induction false} UpperDigits(bcd: Bytes10, k: nat)
    requires ValidBcd(bcd) && k <= 19
    ensures Magnitude(bcd) / Pow10(k) == Upper(bcd, k)
  {
    if k == 0 {
      WholeUpper(bcd);
    } else {
      UpperDigits(bcd, k - 1);
      DropDigit(bcd, k - 1, k);
    }
  }

  lemma DropDigit(bcd: Bytes10, j: nat, k: nat)
    requires ValidBcd(bcd) && j < 19 && k == j + 1
    requires Magnitude(bcd) / Pow10(j) == Upper(bcd, j)
    ensures Magnitude(bcd) / Pow10(k) == Upper(bcd, k)
  {
    assert Nibble(bcd, j) <= 9;
    UpperStep(bcd, j, k);
    ShiftDigit(Magnitude(bcd), Pow10(j), Upper(bcd, j), Upper(bcd, k), Nibble(bcd, j));
  }

  lemma UpperStep(bcd: Bytes10, j: nat, next: nat)
    requires j < 19 && next == j + 1
    ensures Upper(bcd, j) == Nibble(bcd, j) + 10 * Upper(bcd, next)
  {
  }

  lemma WholeUpper(bcd: Bytes10)
    ensures Upper(bcd, 0) == Magnitude(bcd)
    ensures Magnitude(bcd) / Pow10(0) == Upper(bcd, 0)
  {
    SplitAt(bcd, 0);
    assert Partial(bcd, 0) == 0 && Pow10(0) == 1;
  }

  lemma ShiftDigit(n: nat, p: nat, above: nat, rest: nat, d: nat)
    requires p >= 1 && n / p == above && above == d + 10 * rest && d <= 9
    ensures n / (10 * p) == rest
  {
    DivDiv(n, p);
    assert p * 10 == 10 * p;
    UniqueDivision(above, 10, rest, d);
  }

  /** Decimal digit k of a valid magnitude is nibble k. */
  lemma ValidDigit(bcd: Bytes10, k: nat)
    requires ValidBcd(bcd) && k < 19
    ensures Digit(Magnitude(bcd), k) == Nibble(bcd, k)
  {
    UpperDigits(bcd, k);
    UniqueDivision(Upper(bcd, k), 10, Upper(bcd, k + 1), Nibble(bcd, k));
  }

  /** A byte is the pair of its two nibbles. */
  lemma ByteOfNibbles(b: bv8)
    requires Low(b) < 10 && High(b) < 10
    ensures Pair(Low(b), High(b)) == b
  {
    NibbleBits(b);
  }

  lemma NibbleBits(b: bv8)
    ensures ((b & 0x0F) as nat) as bv8 == b & 0x0F
    ensures (((b >> 4) & 0x0F) as nat) as bv8 == (b >> 4) & 0x0F
    ensures (b & 0x0F) | (((b >> 4) & 0x0F) << 4) == b
  {
  }

  /** Byte 9 of valid BCD is its digit with the sign bit. */
  lemma LastByte(b: bv8)
    requires b & 0x70 == 0
    ensures (if b & 0x80 != 0 then ((b & 0x0F) | 0x80) else b & 0x0F) == b
    ensures ((b & 0x0F) as nat) as bv8 == b & 0x0F
  {
  }

  /** Valid BCD is rebuilt byte for byte from its magnitude and sign. */
  lemma RepackValid(bcd: Bytes10)
    requires ValidBcd(bcd)
    ensures WithSign(Packed(Magnitude(bcd)), Negative(bcd)) == bcd
  {
    var m := Magnitude(bcd);
    var r := WithSign(Packed(m), Negative(bcd));
    forall i | 0 <= i < 9
      ensures r[i] == bcd[i]
    {
      ValidDigit(bcd, 2 * i);
      ValidDigit(bcd, 2 * i + 1);
      NibblesOfByte(bcd, i);
      ByteOfNibbles(bcd[i]);
    }
    ValidDigit(bcd, 18);
    LastByte(bcd[9]);
    assert r[9] == bcd[9];
  }

  /** fbld then fbstp: valid packed BCD whose magnitude is below 2^53 (so
      the double holds it exactly) is stored back unchanged. */
  lemma LoadThenStore(bcd: Bytes10)
    requires ValidBcd(bcd) && Magnitude(bcd) < Pow2Nat(53)
    ensures EncodeBcd(BcdValue(bcd)) == bcd
  {
    var v := BcdValue(bcd);
    Pow2Nat53();
    assert IntegerPart(v) == Magnitude(bcd);
    RepackValid(bcd);
  }
}
