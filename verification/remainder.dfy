/** The partial-remainder handlers of rosettaRuntime/X87.cpp, x87_fprem and
    x87_fprem1, as far as the state sees them: which operands raise the
    invalid-operation flag, when ST(0) is left alone, and how the low three
    bits of the quotient and the "incomplete" bit are reported in C0-C3.
    The remainder itself, the quotient and ilogb come from the host and
    arrive as parameters. */
module Remainder {
  import opened Words
  import opened Wrappers
  import opened Values
  import opened X87State
  import opened Arithmetic

  // ---------------------------------------------------------------------
  // The quotient bits

  /** The three low bits of the quotient as the handlers report them: bit 2
      in C0, bit 0 in C1, bit 1 in C3. `q % 8` is the low three bits of the
      two's-complement int, so `q & 4`, `q & 1` and `q & 2` read them. */
  function QuotientCodes(q: Int32): (k: bv16)
    ensures k & !(C0 | C1 | C3) == 0
  {
    var low := q % 8;
    (if low >= 4 then C0 else 0) | (if low % 2 == 1 then C1 else 0) | (if (low / 2) % 2 == 1 then C3 else 0)
  }

  /** The quotient bits a program reads back from C0, C3 and C1 after the
      instruction (Intel SDM Vol. 1, section 8.1.3.1). */
  function QuotientBits(status: bv16): (low: nat)
    ensures low < 8
  {
    (if Has(status, C0) then 4 else 0) + (if Has(status, C3) then 2 else 0) + (if Has(status, C1) then 1 else 0)
  }

  /** Reading the codes back gives the quotient's low three bits. */
  lemma QuotientRoundTrip(q: Int32, status: bv16)
    requires status & (C0 | C1 | C3) == QuotientCodes(q)
    ensures QuotientBits(status) == q % 8
  {
    var low := q % 8;
    assert low == 0 || low == 1 || low == 2 || low == 3 || low == 4 || low == 5 || low == 6 || low == 7;
  }

  /** And every pattern of the three codes is the report of some quotient. */
  lemma CodesRoundTrip(status: bv16)
    ensures QuotientCodes(QuotientBits(status)) == status & (C0 | C1 | C3)
  {
  }

  // ---------------------------------------------------------------------
  // The shared skeleton

  /** What one remainder step of the host gives: the remainder stored in
      ST(0) and the quotient whose low bits are reported. */
  datatype Step = Step(rem: Value, quotient: Int32)

  /** fprem's step: q = static_cast<int>(trunc(st0 / st1)), rem =
      fmod(st0, st1). The cast of a quotient int cannot hold is undefined.
      std::trunc is exact, and the cast truncates anyway, so the cast of the
      quotient is the cast of trunc of it. */
  function TruncatedStep(div: Binary, fmod: Binary, a: Value, b: Value): (r: Option<Step>)
    ensures r.Some? <==> CastToInt32(div(a, b)).Some?
    ensures r.Some? ==> r.value.rem == fmod(a, b) && r.value.quotient == CastToInt32(div(a, b)).value
  {
    match CastToInt32(div(a, b))
    case None => None
    case Some(q) => Some(Step(fmod(a, b), q))
  }

  /** The special operands: a NaN on either side, an infinite dividend or a
      zero divisor (`st1 == 0.0` holds for both zeros). */
  predicate Invalid(st0: Value, st1: Value) {
    st0.NaN? || st1.NaN? || st0.Inf? || st1.Zero?
  }

  /** x87_fprem and x87_fprem1 from the reads on: clear C0-C3, read ST(0)
      and ST(1) with getSt; on special operands store a quiet NaN and raise
      invalid-operation; on an infinite divisor return with ST(0) as it was;
      otherwise store the step's remainder, OR in the quotient bits, and set
      C2 when the exponent gap ilogb(st0) - ilogb(st1) reaches `threshold`
      (1 for fprem's `D > 0`, 64 for fprem1's `D >= 64`). A step the source
      leaves undefined, or an int overflow in the gap, gives None. */
  function Reduce(s: State, step: (Value, Value) -> Option<Step>, ilogb: Value -> Int32, threshold: int): (r: Option<State>)
    ensures r.Some? ==> Top(r.value) == Top(s) && r.value.control == s.control
    ensures r.Some? ==> forall q: Slot :: q != Top(s) ==> r.value.st[q] == s.st[q] && TagAt(r.value.tag, q) == TagAt(s.tag, q)
  {
    var o := ClearAndRead(s, 1, ConditionCodes);
    if Invalid(o.st0, o.sti) then Some(InvalidResult(o.state))
    else if o.sti.Inf? then Some(o.state)
    else Reduced(o.state, o.st0, o.sti, step, ilogb, threshold)
  }

  /** setSt(0, quiet NaN), then `statusWord |= kInvalidOperation`. */
  function InvalidResult(u: State): (r: State)
    ensures GetStFast(r, 0) == QuietNaN && GetStTag(r, 0) == TagSpecial
    ensures Has(r.status, InvalidOperation) && SameOutside(r.status, u.status, InvalidOperation)
    ensures Top(r) == Top(u) && r.control == u.control
    ensures forall q: Slot :: q != Top(u) ==> r.st[q] == u.st[q] && TagAt(r.tag, q) == TagAt(u.tag, q)
  {
    var w := SetSt(u, 0, QuietNaN);
    assert StIndex(u, 0) == Top(u);
    Recode(w, InvalidOperation, InvalidOperation)
  }

  /** The codes the computing path ORs in. */
  function ReduceCodes(quotient: Int32, gap: int, threshold: int): (k: bv16)
    ensures k & !ConditionCodes == 0
    ensures k & (C0 | C1 | C3) == QuotientCodes(quotient)
    ensures Has(k, C2) <==> gap >= threshold
  {
    QuotientCodes(quotient) | (if gap >= threshold then C2 else 0)
  }

  /** The computing path: the step, then the gap; undefined if either is. */
  function Reduced(u: State, st0: Value, st1: Value, step: (Value, Value) -> Option<Step>, ilogb: Value -> Int32, threshold: int): (r: Option<State>)
    ensures r.Some? <==> step(st0, st1).Some? && -0x8000_0000 <= ilogb(st0) - ilogb(st1) < 0x8000_0000
    ensures r.Some? ==> r.value == Store(u, step(st0, st1).value, ilogb(st0) - ilogb(st1), threshold)
  {
    match step(st0, st1)
    case None => None
    case Some(k) =>
      var gap := ilogb(st0) - ilogb(st1);
      if -0x8000_0000 <= gap < 0x8000_0000 then Some(Store(u, k, gap, threshold)) else None
  }

  /** setSt(0, rem), then OR in the quotient bits and C2. */
  function Store(u: State, k: Step, gap: int, threshold: int): (r: State)
    ensures GetStFast(r, 0) == k.rem && GetStTag(r, 0) == Classify(k.rem)
    ensures SameOutside(r.status, u.status, ConditionCodes)
    ensures r.status & ConditionCodes == (u.status & ConditionCodes) | ReduceCodes(k.quotient, gap, threshold)
    ensures Top(r) == Top(u) && r.control == u.control
    ensures forall q: Slot :: q != Top(u) ==> r.st[q] == u.st[q] && TagAt(r.tag, q) == TagAt(u.tag, q)
  {
    var w := SetSt(u, 0, k.rem);
    var codes := ReduceCodes(k.quotient, gap, threshold);
    OrCodes(w.status, u.status, codes);
    var r := Recode(w, codes, codes);
    StoredSlots(u, w, r, k.rem);
    r
  }

  /** What setSt on ST(0) leaves once codes inside the condition-code mask
      are ORed in. */
  lemma StoredSlots(u: State, w: State, r: State, v: Value)
    requires w == SetSt(u, 0, v) && r == w.(status := r.status)
    requires SameOutside(r.status, u.status, ConditionCodes)
    ensures GetStFast(r, 0) == v && GetStTag(r, 0) == Classify(v)
    ensures Top(r) == Top(u) && r.control == u.control
    ensures forall q: Slot :: q != Top(u) ==> r.st[q] == u.st[q] && TagAt(r.tag, q) == TagAt(u.tag, q)
  {
    SameTop(r, u, ConditionCodes);
    assert StIndex(u, 0) == Top(u);
    assert StIndex(r, 0) == Top(u);
  }

  /** ORing codes inside the condition-code mask changes nothing outside it. */
  lemma OrCodes(w: bv16, u: bv16, codes: bv16)
    requires w == u && codes & !ConditionCodes == 0
    ensures SameOutside((w & !codes) | codes, u, ConditionCodes)
    ensures ((w & !codes) | codes) & ConditionCodes == (u & ConditionCodes) | codes
  {
  }

  // ---------------------------------------------------------------------
  // The handlers

  /** x87_fprem: a truncated quotient, C2 when the gap is positive. Defined
      on special operands and on an infinite divisor; otherwise exactly when
      the quotient's cast to int and the exponent gap are defined. */
  function Fprem(s: State, div: Binary, fmod: Binary, ilogb: Value -> Int32): (r: Option<State>)
    ensures r.Some? ==> Top(r.value) == Top(s) && r.value.control == s.control
    ensures r.Some? ==> forall q: Slot :: q != Top(s) ==> r.value.st[q] == s.st[q] && TagAt(r.value.tag, q) == TagAt(s.tag, q)
    ensures var a, b := GetSt(s, 0).value, GetSt(s, 1).value;
      r.Some? <==> (Invalid(a, b) || b.Inf? ||
        (CastToInt32(div(a, b)).Some? && -0x8000_0000 <= ilogb(a) - ilogb(b) < 0x8000_0000))
  {
    var step := (a, b) => TruncatedStep(div, fmod, a, b);
    ReduceDefined(s, step, ilogb, 1);
    Reduce(s, step, ilogb, 1)
  }

  /** x87_fprem1: remquo's remainder and quotient, C2 when the gap is at
      least 64. Undefined only when the exponent gap overflows. */
  function Fprem1(s: State, remquo: (Value, Value) -> Step, ilogb: Value -> Int32): (r: Option<State>)
    ensures r.Some? ==> Top(r.value) == Top(s) && r.value.control == s.control
    ensures r.Some? ==> forall q: Slot :: q != Top(s) ==> r.value.st[q] == s.st[q] && TagAt(r.value.tag, q) == TagAt(s.tag, q)
    ensures var a, b := GetSt(s, 0).value, GetSt(s, 1).value;
      r.Some? <==> Invalid(a, b) || b.Inf? || -0x8000_0000 <= ilogb(a) - ilogb(b) < 0x8000_0000
  {
    var step := (a, b) => Some(remquo(a, b));
    ReduceDefined(s, step, ilogb, 64);
    Reduce(s, step, ilogb, 64)
  }

  /** The shared tail is undefined only on ordinary operands, and there
      exactly when the step or the gap is. */
  lemma ReduceDefined(s: State, step: (Value, Value) -> Option<Step>, ilogb: Value -> Int32, threshold: int)
    ensures var a, b := GetSt(s, 0).value, GetSt(s, 1).value;
      Reduce(s, step, ilogb, threshold).Some? <==> (Invalid(a, b) || b.Inf? ||
        (step(a, b).Some? && -0x8000_0000 <= ilogb(a) - ilogb(b) < 0x8000_0000))
  {
    var a, b := GetSt(s, 0).value, GetSt(s, 1).value;
    if Invalid(a, b) {
      InvalidOperands(s, step, ilogb, threshold);
    } else if b.Inf? {
      InfiniteDivisor(s, step, ilogb, threshold);
    } else {
      ReducedReports(s, step, ilogb, threshold);
    }
  }

  // ---------------------------------------------------------------------
  // Properties

  /** A NaN or empty operand, an infinite dividend or a zero divisor stores
      a quiet NaN in ST(0) and raises invalid-operation, whatever the step. */
  lemma InvalidOperands(s: State, step: (Value, Value) -> Option<Step>, ilogb: Value -> Int32, threshold: int)
    requires Invalid(GetSt(s, 0).value, GetSt(s, 1).value)
    ensures Reduce(s, step, ilogb, threshold).Some?
    ensures GetStFast(Reduce(s, step, ilogb, threshold).value, 0) == QuietNaN
    ensures GetStTag(Reduce(s, step, ilogb, threshold).value, 0) == TagSpecial
    ensures Has(Reduce(s, step, ilogb, threshold).value.status, InvalidOperation)
    ensures QuotientBits(Reduce(s, step, ilogb, threshold).value.status) == 0
    ensures !Has(Reduce(s, step, ilogb, threshold).value.status, C2)
  {
    var o := ClearAndRead(s, 1, ConditionCodes);
    CodesStayClear(o.state.status, InvalidResult(o.state).status, InvalidOperation);
  }

  /** Bits outside the condition codes do not disturb them. */
  lemma CodesStayClear(u: bv16, r: bv16, mask: bv16)
    requires u & ConditionCodes == 0 && SameOutside(r, u, mask) && mask & ConditionCodes == 0
    ensures r & ConditionCodes == 0
    ensures QuotientBits(r) == 0 && !Has(r, C2)
  {
  }

  /** An empty ST(0) or ST(1) reads as a quiet NaN: the result is the
      invalid one, with the stack-fault bits raised as well. */
  lemma EmptyOperand(s: State, step: (Value, Value) -> Option<Step>, ilogb: Value -> Int32, threshold: int)
    requires GetStTag(s, 0) == TagEmpty || GetStTag(s, 1) == TagEmpty
    ensures Reduce(s, step, ilogb, threshold).Some?
    ensures GetStFast(Reduce(s, step, ilogb, threshold).value, 0) == QuietNaN
    ensures Has(Reduce(s, step, ilogb, threshold).value.status, InvalidOperation | StackFault)
  {
    var o := ClearAndRead(s, 1, ConditionCodes);
    assert Invalid(o.st0, o.sti);
    InvalidThenFault(o.state.status, InvalidResult(o.state).status);
  }

  lemma InvalidThenFault(u: bv16, r: bv16)
    requires Has(u, StackUnderflow) && SameOutside(r, u, InvalidOperation) && Has(r, InvalidOperation)
    ensures Has(r, InvalidOperation | StackFault)
  {
  }

  /** A finite dividend over an infinite divisor is its own remainder: only
      the condition codes are cleared. */
  lemma InfiniteDivisor(s: State, step: (Value, Value) -> Option<Step>, ilogb: Value -> Int32, threshold: int)
    requires !Invalid(GetSt(s, 0).value, GetSt(s, 1).value) && GetSt(s, 1).value.Inf?
    ensures Reduce(s, step, ilogb, threshold) == Some(Recode(s, ConditionCodes, 0))
  {
    NotEmpty(s, 0);
    NotEmpty(s, 1);
  }

  /** A slot that does not read as a NaN is in use. */
  lemma NotEmpty(s: State, i: bv32)
    requires !GetSt(s, i).value.NaN?
    ensures GetStTag(s, i) != TagEmpty
  {
  }

  /** On ordinary operands the result is defined exactly when the step is
      and the exponent gap fits an int; ST(0) then holds the remainder, C0,
      C3 and C1 spell the quotient's low three bits, and C2 says whether the
      gap reached the threshold. */
  lemma ReducedReports(s: State, step: (Value, Value) -> Option<Step>, ilogb: Value -> Int32, threshold: int)
    requires !Invalid(GetSt(s, 0).value, GetSt(s, 1).value) && !GetSt(s, 1).value.Inf?
    ensures var a, b := GetSt(s, 0).value, GetSt(s, 1).value;
      Reduce(s, step, ilogb, threshold).Some? <==>
        step(a, b).Some? && -0x8000_0000 <= ilogb(a) - ilogb(b) < 0x8000_0000
    ensures var a, b := GetSt(s, 0).value, GetSt(s, 1).value;
      Reduce(s, step, ilogb, threshold).Some? ==>
        && GetStFast(Reduce(s, step, ilogb, threshold).value, 0) == step(a, b).value.rem
        && QuotientBits(Reduce(s, step, ilogb, threshold).value.status) == step(a, b).value.quotient % 8
        && (Has(Reduce(s, step, ilogb, threshold).value.status, C2) <==> ilogb(a) - ilogb(b) >= threshold)
  {
    var o := ClearAndRead(s, 1, ConditionCodes);
    var r := Reduced(o.state, o.st0, o.sti, step, ilogb, threshold);
    if r.Some? {
      var k := step(o.st0, o.sti).value;
      var codes := ReduceCodes(k.quotient, ilogb(o.st0) - ilogb(o.sti), threshold);
      ReportedCodes(o.state.status, r.value.status, codes, k.quotient);
    }
  }

  lemma ReportedCodes(u: bv16, r: bv16, codes: bv16, q: Int32)
    requires u & ConditionCodes == 0 && r & ConditionCodes == (u & ConditionCodes) | codes
    requires codes & !ConditionCodes == 0 && codes & (C0 | C1 | C3) == QuotientCodes(q)
    ensures QuotientBits(r) == q % 8
    ensures Has(r, C2) <==> Has(codes, C2)
  {
    assert r & (C0 | C1 | C3) == QuotientCodes(q);
    QuotientRoundTrip(q, r);
  }

  /** fprem on ordinary operands: undefined exactly when the quotient does
      not fit an int (or the gap overflows); otherwise C0, C3, C1 give the
      truncated quotient's low bits and C2 is set when the gap is positive. */
  lemma FpremReports(s: State, div: Binary, fmod: Binary, ilogb: Value -> Int32)
    requires !Invalid(GetSt(s, 0).value, GetSt(s, 1).value) && !GetSt(s, 1).value.Inf?
    ensures var a, b := GetSt(s, 0).value, GetSt(s, 1).value;
      Fprem(s, div, fmod, ilogb).Some? <==>
        CastToInt32(div(a, b)).Some? && -0x8000_0000 <= ilogb(a) - ilogb(b) < 0x8000_0000
    ensures var a, b := GetSt(s, 0).value, GetSt(s, 1).value;
      Fprem(s, div, fmod, ilogb).Some? ==>
        && GetStFast(Fprem(s, div, fmod, ilogb).value, 0) == fmod(a, b)
        && QuotientBits(Fprem(s, div, fmod, ilogb).value.status) == CastToInt32(div(a, b)).value % 8
        && (Has(Fprem(s, div, fmod, ilogb).value.status, C2) <==> ilogb(a) > ilogb(b))
  {
    ReducedReports(s, (a, b) => TruncatedStep(div, fmod, a, b), ilogb, 1);
  }

  /** fprem1 on ordinary operands: always defined unless the gap overflows;
      C0, C3, C1 give remquo's quotient bits and C2 is set when the gap is
      64 or more. */
  lemma Fprem1Reports(s: State, remquo: (Value, Value) -> Step, ilogb: Value -> Int32)
    requires !Invalid(GetSt(s, 0).value, GetSt(s, 1).value) && !GetSt(s, 1).value.Inf?
    ensures var a, b := GetSt(s, 0).value, GetSt(s, 1).value;
      Fprem1(s, remquo, ilogb).Some? <==> -0x8000_0000 <= ilogb(a) - ilogb(b) < 0x8000_0000
    ensures var a, b := GetSt(s, 0).value, GetSt(s, 1).value;
      Fprem1(s, remquo, ilogb).Some? ==>
        && GetStFast(Fprem1(s, remquo, ilogb).value, 0) == remquo(a, b).rem
        && QuotientBits(Fprem1(s, remquo, ilogb).value.status) == remquo(a, b).quotient % 8
        && (Has(Fprem1(s, remquo, ilogb).value.status, C2) <==> ilogb(a) - ilogb(b) >= 64)
  {
    ReducedReports(s, (a, b) => Some(remquo(a, b)), ilogb, 64);
  }

  /** fprem and fprem1 part ways only on ordinary operands: on the special
      ones and on an infinite divisor they leave the same state. */
  lemma SpecialCasesAgree(s: State, div: Binary, fmod: Binary, remquo: (Value, Value) -> Step, ilogb: Value -> Int32)
    requires Invalid(GetSt(s, 0).value, GetSt(s, 1).value) || GetSt(s, 1).value.Inf?
    ensures Fprem(s, div, fmod, ilogb) == Fprem1(s, remquo, ilogb)
  {
  }
}
