/** Bit layout of the three 16-bit words of the emulated x87 unit: the status
    word flags, the control word fields and the 2-bit register tags
    (rosettaRuntime/X87State.h, enums X87StatusWordFlag, X87TagState and
    X87ControlWord). */
module Words {

  // Exception flags of the status word
  const InvalidOperation: bv16 := 0x0001
  const DenormalizedOperand: bv16 := 0x0002
  const ZeroDivide: bv16 := 0x0004
  const Overflow: bv16 := 0x0008
  const Underflow: bv16 := 0x0010
  const Precision: bv16 := 0x0020
  const ExceptionFlags: bv16 := 0x003F

  // Status flags
  const StackFault: bv16 := 0x0040
  const ErrorSummary: bv16 := 0x0080

  // Condition codes; C3 sits apart from the other three, above the TOP field
  const C0: bv16 := 0x0100
  const C1: bv16 := 0x0200
  const C2: bv16 := 0x0400
  const C3: bv16 := 0x4000
  const ConditionCodes: bv16 := 0x4700

  /** Bits 11-13 hold the index of the physical register that is ST(0). */
  const TopOfStack: bv16 := 0x3800
  const Busy: bv16 := 0x8000

  /** What reading an empty register raises: stack fault plus invalid operation. */
  const StackUnderflow: bv16 := 0x0041

  // Control word
  const InvalidOpMask: bv16 := 0x0001
  const DenormalMask: bv16 := 0x0002
  const ZeroDivideMask: bv16 := 0x0004
  const OverflowMask: bv16 := 0x0008
  const UnderflowMask: bv16 := 0x0010
  const PrecisionMask: bv16 := 0x0020
  const ExceptionMasks: bv16 := 0x003F
  const PrecisionControl: bv16 := 0x0300
  const Precision64Bit: bv16 := 0x0300
  const RoundingControl: bv16 := 0x0C00

  /** The four rounding modes selected by control bits 10-11. */
  datatype RoundingMode = ToNearest | Down | Up | ToZero

  function RoundingOf(control: bv16): (m: RoundingMode)
    ensures m == ToNearest <==> control & RoundingControl == 0x0000
    ensures m == Down <==> control & RoundingControl == 0x0400
    ensures m == Up <==> control & RoundingControl == 0x0800
    ensures m == ToZero <==> control & RoundingControl == 0x0C00
  {
    var bits := control & RoundingControl;
    if bits == 0x0000 then ToNearest
    else if bits == 0x0400 then Down
    else if bits == 0x0800 then Up
    else ToZero
  }

  /** Register tag: 00 valid, 01 zero, 10 special (NaN, infinity, denormal), 11 empty. */
  datatype Tag = TagValid | TagZero | TagSpecial | TagEmpty

  function TagCode(t: Tag): (b: bv16)
    ensures b < 4
  {
    match t
    case TagValid => 0
    case TagZero => 1
    case TagSpecial => 2
    case TagEmpty => 3
  }

  function TagOfCode(b: bv16): (t: Tag)
    requires b < 4
    ensures TagCode(t) == b
  {
    if b == 0 then TagValid
    else if b == 1 then TagZero
    else if b == 2 then TagSpecial
    else TagEmpty
  }

  lemma TagCodeRoundTrip(t: Tag)
    ensures TagOfCode(TagCode(t)) == t
  {
  }

  /** The four condition-code bits of a status word, decoded. */
  datatype Codes = Codes(c0: bool, c1: bool, c2: bool, c3: bool)

  function CodesOf(status: bv16): Codes {
    Codes(status & C0 != 0, status & C1 != 0, status & C2 != 0, status & C3 != 0)
  }

  /** True when every bit of `flags` is set in `w`. */
  predicate Has(w: bv16, flags: bv16) {
    w & flags == flags
  }

  /** True when `a` and `b` agree outside the bits of `mask`. */
  predicate SameOutside(a: bv16, b: bv16, mask: bv16) {
    a & !mask == b & !mask
  }

  /** Clearing the bits of a mask and setting some of them again changes
      nothing outside the mask. */
  lemma ClearThenSet(a: bv16, mask: bv16, k: bv16)
    requires k & !mask == 0
    ensures SameOutside((a & !mask) | k, a, mask)
    ensures ((a & !mask) | k) & mask == k
  {
  }

  /** Agreement outside two masks in a row is agreement outside their union. */
  lemma SameOutsideChain(a: bv16, b: bv16, c: bv16, m1: bv16, m2: bv16)
    requires SameOutside(a, b, m1) && SameOutside(b, c, m2)
    ensures SameOutside(a, c, m1 | m2)
  {
  }
}
