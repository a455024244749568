/** The comparison handlers of rosettaRuntime/X87.cpp: fcom and fucom in
    their register and memory forms, ficom, the flag word fcomi and fucomi
    return, and fxam's classification of ST(0). Operands are read with
    getSt, so an empty slot compares as a quiet NaN and raises the
    stack-underflow flags before the condition codes are written. */
module Comparisons {
  import opened Words
  import opened Wrappers
  import opened Values
  import opened X87State

  /** C0, C2 and C3: the bits a compare clears and then sets. */
  const CompareCodes: bv16 := 0x4500

  // ---------------------------------------------------------------------
  // The Intel encoding, as a reader of the status word decodes it

  /** The outcome C3, C2, C0 report after a compare: 000 greater, 001 less,
      100 equal, 111 unordered. The other four patterns mean nothing. */
  function Reported(c: Codes): Option<Ordering> {
    if !c.c3 && !c.c2 && !c.c0 then Some(Gt)
    else if !c.c3 && !c.c2 && c.c0 then Some(Lt)
    else if c.c3 && !c.c2 && !c.c0 then Some(Eq)
    else if c.c3 && c.c2 && c.c0 then Some(Unordered)
    else None
  }

  // ---------------------------------------------------------------------
  // The bits the handlers OR in

  /** The `st0 > src` / `st0 < src` / else chain: nothing, C0 or C3. A NaN
      fails both tests and lands in the C3 branch. */
  function OrderCodes(st0: Value, src: Value): (c: bv16)
    ensures c & !CompareCodes == 0
  {
    if Less(src, st0) then 0 else if Less(st0, src) then C0 else C3
  }

  /** fcom: the chain, then C0|C2|C3 on top when the invalid-operation
      exception is masked and an operand is a NaN. The chain's bits lie
      inside C0|C2|C3, so the OR is that word itself. */
  function FcomCodes(control: bv16, st0: Value, src: Value): (c: bv16)
    ensures c & !CompareCodes == 0
  {
    if Has(control, InvalidOpMask) && (st0.NaN? || src.NaN?) then CompareCodes else OrderCodes(st0, src)
  }

  /** fucom and ficom: a NaN operand gives C0|C2|C3 whatever the mask. */
  function FucomCodes(st0: Value, src: Value): (c: bv16)
    ensures c & !CompareCodes == 0
  {
    if st0.NaN? || src.NaN? then CompareCodes else OrderCodes(st0, src)
  }

  /** Codes written under the wider C0-C3 mask read back under C0|C2|C3. */
  lemma WithinCompareCodes(x: bv16, codes: bv16)
    requires x & ConditionCodes == codes && codes & !CompareCodes == 0
    ensures x & CompareCodes == codes
  {
  }

  /** What fcom's codes report, whatever else the word holds: the
      comparison when the exception is masked or the operands are ordered,
      "equal" for a NaN with the exception unmasked. */
  lemma FcomCodesReport(x: bv16, control: bv16, a: Value, b: Value)
    requires x & CompareCodes == FcomCodes(control, a, b)
    ensures Has(control, InvalidOpMask) || !(a.NaN? || b.NaN?) ==> Reported(CodesOf(x)) == Some(Compare(a, b))
    ensures !Has(control, InvalidOpMask) && (a.NaN? || b.NaN?) ==> Reported(CodesOf(x)) == Some(Eq)
  {
  }

  /** fucom's codes report the comparison, whatever else the word holds. */
  lemma FucomCodesReport(x: bv16, a: Value, b: Value)
    requires x & CompareCodes == FucomCodes(a, b)
    ensures Reported(CodesOf(x)) == Some(Compare(a, b))
  {
  }

  // ---------------------------------------------------------------------
  // The register forms

  /** x87_fcom_ST: read ST(0) and ST(i), clear C0, C2 and C3, set the codes,
      then pop `pops` times. */
  function FcomSt(s: State, i: bv32, pops: nat): (r: State)
    ensures pops == 0 ==> r == s.(status := r.status)
    ensures pops == 0 ==> SameOutside(r.status, s.status, CompareCodes | StackUnderflow)
    ensures Top(r) == Top(s) + (pops % 8) as bv3
    ensures pops > 0 ==> r == PopN(FcomSt(s, i, 0), pops)
  {
    var o := ReadBoth(s, i);
    var u := Recode(o.state, CompareCodes, FcomCodes(o.state.control, o.st0, o.sti));
    SameOutsideChain(u.status, o.state.status, s.status, CompareCodes, StackUnderflow);
    SameTop(u, s, CompareCodes | StackUnderflow);
    PopNTop(u, pops);
    PopN(u, pops)
  }

  /** x87_fucom: as fcom, except that a NaN operand always reports
      unordered. */
  function Fucom(s: State, i: bv32, pops: nat): (r: State)
    ensures pops == 0 ==> r == s.(status := r.status)
    ensures pops == 0 ==> SameOutside(r.status, s.status, CompareCodes | StackUnderflow)
    ensures Top(r) == Top(s) + (pops % 8) as bv3
    ensures pops > 0 ==> r == PopN(Fucom(s, i, 0), pops)
  {
    var o := ReadBoth(s, i);
    var u := Recode(o.state, CompareCodes, FucomCodes(o.st0, o.sti));
    SameOutsideChain(u.status, o.state.status, s.status, CompareCodes, StackUnderflow);
    SameTop(u, s, CompareCodes | StackUnderflow);
    PopNTop(u, pops);
    PopN(u, pops)
  }

  /** With the invalid-operation exception masked, or with two ordered
      operands, fcom reports the IEEE comparison of ST(0) with ST(i). With
      the exception unmasked a NaN operand reports "equal": no exception is
      delivered and only the C3 branch of the chain fires. */
  lemma FcomReportsOrdering(s: State, i: bv32)
    ensures var o := Compare(GetSt(s, 0).value, GetSt(s, i).value);
      (Has(s.control, InvalidOpMask) || o != Unordered ==> Reported(CodesOf(FcomSt(s, i, 0).status)) == Some(o))
      && (!Has(s.control, InvalidOpMask) && o == Unordered ==> Reported(CodesOf(FcomSt(s, i, 0).status)) == Some(Eq))
  {
    var o := ReadBoth(s, i);
    FcomCodesReport(FcomSt(s, i, 0).status, o.state.control, o.st0, o.sti);
  }

  /** fucom always reports the IEEE comparison of ST(0) with ST(i). */
  lemma FucomReportsOrdering(s: State, i: bv32)
    ensures Reported(CodesOf(Fucom(s, i, 0).status)) == Some(Compare(GetSt(s, 0).value, GetSt(s, i).value))
  {
    var o := ReadBoth(s, i);
    FucomCodesReport(Fucom(s, i, 0).status, o.st0, o.sti);
  }

  /** A compare flags an empty operand: the stack-underflow bits are set
      after it exactly when an operand slot is empty or they were set
      already. */
  lemma CompareFlagsEmptyOperand(s: State, i: bv32)
    ensures Has(FcomSt(s, i, 0).status, StackUnderflow) <==>
      GetStTag(s, 0) == TagEmpty || GetStTag(s, i) == TagEmpty || Has(s.status, StackUnderflow)
  {
    ReadBothFlagsEmpty(s, i);
  }

  // ---------------------------------------------------------------------
  // The memory and integer forms

  /** x87_fcom_f32: ST(0) against a float operand widened exactly to double;
      this form also clears C1. */
  function FcomF32(s: State, bits: bv32, pop: bool): (r: State)
    ensures !pop ==> r == s.(status := r.status)
    ensures !pop ==> SameOutside(r.status, s.status, ConditionCodes | StackUnderflow)
    ensures pop ==> Top(r) == Top(s) + 1
    ensures !Has(r.status, C1)
    ensures pop ==> r == Pop(FcomF32(s, bits, false))
  {
    var a := GetSt(s, 0);
    ReadFrame(s, 0);
    var u := Recode(a.state, ConditionCodes, FcomCodes(a.state.control, a.value, SingleValue(bits)));
    SameOutsideChain(u.status, a.state.status, s.status, ConditionCodes, StackUnderflow);
    SameTop(u, s, ConditionCodes | StackUnderflow);
    if pop then Pop(u) else u
  }

  /** x87_fcom_f64: ST(0) against a double operand; C1 is left alone. */
  function FcomF64(s: State, bits: bv64, pop: bool): (r: State)
    ensures !pop ==> r == s.(status := r.status)
    ensures !pop ==> SameOutside(r.status, s.status, CompareCodes | StackUnderflow)
    ensures pop ==> Top(r) == Top(s) + 1
    ensures pop ==> r == Pop(FcomF64(s, bits, false))
  {
    var a := GetSt(s, 0);
    ReadFrame(s, 0);
    var u := Recode(a.state, CompareCodes, FcomCodes(a.state.control, a.value, DoubleValue(bits)));
    SameOutsideChain(u.status, a.state.status, s.status, CompareCodes, StackUnderflow);
    SameTop(u, s, CompareCodes | StackUnderflow);
    if pop then Pop(u) else u
  }

  /** x87_ficom: ST(0) against an int32 operand converted exactly to double. */
  function Ficom(s: State, n: Int32, pop: bool): (r: State)
    ensures !pop ==> r == s.(status := r.status)
    ensures !pop ==> SameOutside(r.status, s.status, CompareCodes | StackUnderflow)
    ensures pop ==> Top(r) == Top(s) + 1
    ensures pop ==> r == Pop(Ficom(s, n, false))
  {
    var a := GetSt(s, 0);
    ReadFrame(s, 0);
    var u := Recode(a.state, CompareCodes, FucomCodes(a.value, IntToValue(n)));
    SameOutsideChain(u.status, a.state.status, s.status, CompareCodes, StackUnderflow);
    SameTop(u, s, CompareCodes | StackUnderflow);
    if pop then Pop(u) else u
  }

  /** The memory forms report the comparison with the decoded operand, under
      the same masking rule as the register form; ficom always reports it. */
  lemma MemoryComparesReportOrdering(s: State, bits32: bv32, bits64: bv64, n: Int32)
    ensures var st0 := GetSt(s, 0).value;
      (Has(s.control, InvalidOpMask) || !(st0.NaN? || SingleValue(bits32).NaN?) ==>
        Reported(CodesOf(FcomF32(s, bits32, false).status)) == Some(Compare(st0, SingleValue(bits32))))
      && (Has(s.control, InvalidOpMask) || !(st0.NaN? || DoubleValue(bits64).NaN?) ==>
        Reported(CodesOf(FcomF64(s, bits64, false).status)) == Some(Compare(st0, DoubleValue(bits64))))
      && Reported(CodesOf(Ficom(s, n, false).status)) == Some(Compare(st0, IntToValue(n)))
  {
    var a := GetSt(s, 0);
    var codes := FcomCodes(a.state.control, a.value, SingleValue(bits32));
    WithinCompareCodes(FcomF32(s, bits32, false).status, codes);
    FcomCodesReport(FcomF32(s, bits32, false).status, a.state.control, a.value, SingleValue(bits32));
    FcomCodesReport(FcomF64(s, bits64, false).status, a.state.control, a.value, DoubleValue(bits64));
    FucomCodesReport(Ficom(s, n, false).status, a.value, IntToValue(n));
  }

  // ---------------------------------------------------------------------
  // fcomi and fucomi: the returned flag word

  /** A flag word returned to the translated code with the machine state. */
  datatype Flagged = Flagged(flags: bv32, state: State)

  /** The `<` / `>` / else chain of fcomi: 0 for less, 0x20000000 for
      greater, 0x60000000 otherwise (equal or unordered). */
  function ComiFlags(st0: Value, src: Value): bv32 {
    if Less(st0, src) then 0 else if Less(src, st0) then 0x2000_0000 else 0x6000_0000
  }

  /** The three flag words and what they stand for; any other word is not
      produced. */
  function FlagOrdering(flags: bv32): Option<Ordering> {
    if flags == 0 then Some(Lt)
    else if flags == 0x2000_0000 then Some(Gt)
    else if flags == 0x6000_0000 then Some(Eq)
    else None
  }

  /** The flags name the comparison, an unordered pair reading as equal. */
  lemma ComiFlagsReport(a: Value, b: Value)
    ensures FlagOrdering(ComiFlags(a, b)) == (if Compare(a, b) == Unordered then Some(Eq) else Some(Compare(a, b)))
  {
  }

  /** x87_fcomi and x87_fucomi: clear one condition bit (`clear` is C0 for
      fcomi and C1 for fucomi), read both operands, build the flags, pop if
      asked. */
  function Comi(s: State, i: bv32, clear: bv16, pop: bool): (r: Flagged)
    requires clear & TopOfStack == 0
    ensures !pop ==> r.state == s.(status := r.state.status)
    ensures !pop ==> SameOutside(r.state.status, s.status, clear | StackUnderflow)
    ensures pop ==> Top(r.state) == Top(s) + 1
    ensures pop ==> r == Flagged(Comi(s, i, clear, false).flags, Pop(Comi(s, i, clear, false).state))
  {
    var s1 := Recode(s, clear, 0);
    var o := ReadBoth(s1, i);
    SameOutsideChain(o.state.status, s1.status, s.status, StackUnderflow, clear);
    SameTop(o.state, s, StackUnderflow | clear);
    Flagged(ComiFlags(o.st0, o.sti), if pop then Pop(o.state) else o.state)
  }

  /** x87_fcomi. */
  function Fcomi(s: State, i: bv32, pop: bool): (r: Flagged)
    ensures !pop ==> r.state == s.(status := r.state.status)
    ensures !pop ==> SameOutside(r.state.status, s.status, C0 | StackUnderflow)
    ensures !pop ==> !Has(r.state.status, C0)
    ensures pop ==> r == Flagged(Fcomi(s, i, false).flags, Pop(Fcomi(s, i, false).state))
  {
    Comi(s, i, C0, pop)
  }

  /** x87_fucomi. */
  function Fucomi(s: State, i: bv32, pop: bool): (r: Flagged)
    ensures !pop ==> r.state == s.(status := r.state.status)
    ensures !pop ==> SameOutside(r.state.status, s.status, C1 | StackUnderflow)
    ensures !pop ==> !Has(r.state.status, C1)
    ensures pop ==> r == Flagged(Fucomi(s, i, false).flags, Pop(Fucomi(s, i, false).state))
  {
    Comi(s, i, C1, pop)
  }

  /** fcomi and fucomi agree with each other and with the comparison of the
      operands, an unordered pair reading as equal; so their flags say
      what fcom's codes say whenever the operands are ordered. */
  lemma ComiReportsOrdering(s: State, i: bv32, pop: bool)
    ensures var o := Compare(GetSt(s, 0).value, GetSt(s, i).value);
      FlagOrdering(Fcomi(s, i, pop).flags) == (if o == Unordered then Some(Eq) else Some(o))
    ensures Fcomi(s, i, pop).flags == Fucomi(s, i, pop).flags
    ensures var o := Compare(GetSt(s, 0).value, GetSt(s, i).value);
      o != Unordered ==> FlagOrdering(Fcomi(s, i, pop).flags) == Reported(CodesOf(FcomSt(s, i, 0).status))
  {
    var f := ComiFlags(GetSt(s, 0).value, GetSt(s, i).value);
    ComiFlagsOfOperands(s, i, C0, pop);
    ComiFlagsOfOperands(s, i, C1, pop);
    assert Fcomi(s, i, pop).flags == f && Fucomi(s, i, pop).flags == f;
    ComiFlagsReport(GetSt(s, 0).value, GetSt(s, i).value);
    FcomReportsOrdering(s, i);
  }

  /** The bit cleared first does not change what the reads return. */
  lemma ComiFlagsOfOperands(s: State, i: bv32, clear: bv16, pop: bool)
    requires clear & TopOfStack == 0
    ensures Comi(s, i, clear, pop).flags == ComiFlags(GetSt(s, 0).value, GetSt(s, i).value)
  {
    var s1 := Recode(s, clear, 0);
    ReadIgnoresFlags(s, s1, 0, clear);
    ReadIgnoresFlags(s, s1, i, clear);
  }

  // ---------------------------------------------------------------------
  // fxam

  /** The classes of the Intel FXAM table. */
  datatype Class = Unsupported | NaNClass | NormalClass | InfinityClass | ZeroClass | EmptyClass | DenormalClass

  /** The FXAM table on C3, C2, C0. */
  function ClassOfCodes(c: Codes): Class {
    if !c.c3 && !c.c2 && c.c0 then NaNClass
    else if !c.c3 && c.c2 && !c.c0 then NormalClass
    else if !c.c3 && c.c2 && c.c0 then InfinityClass
    else if c.c3 && !c.c2 && !c.c0 then ZeroClass
    else if c.c3 && !c.c2 && c.c0 then EmptyClass
    else if c.c3 && c.c2 && !c.c0 then DenormalClass
    else Unsupported
  }

  /** The class of a value, read off the datatype. */
  function ClassOf(v: Value): Class {
    match v
    case Zero(_) => ZeroClass
    case Normal(_, _) => NormalClass
    case Subnormal(_, _) => DenormalClass
    case Inf(_) => InfinityClass
    case NaN(_) => NaNClass
  }

  /** The codes fxam sets for ST(0): an empty tag gives C3|C0 and a zero tag
      C3, both without looking at the value; otherwise C1 is the sign and
      C3, C2, C0 the value's class, a value that is not NaN, infinite or
      subnormal counting as normal. */
  function FxamCodes(tag: Tag, v: Value): (c: bv16)
    ensures c & !ConditionCodes == 0
  {
    if tag == TagEmpty then C3 | C0
    else if tag == TagZero then C3
    else
      var sign: bv16 := if v.neg then C1 else 0;
      var kind: bv16 :=
        if v.NaN? then C0
        else if v.Inf? then C2 | C0
        else if v.Subnormal? then C3 | C2
        else C2;
      sign | kind
  }

  /** x87_fxam: clear C0-C3 and set the codes of ST(0). The slot is read
      without a stack check: an empty slot is reported, not faulted. */
  function Fxam(s: State): (r: State)
    ensures r == s.(status := r.status)
    ensures SameOutside(r.status, s.status, ConditionCodes)
  {
    Recode(s, ConditionCodes, FxamCodes(GetStTag(s, 0), GetStFast(s, 0)))
  }

  /** With a tag that matches its slot (as setSt leaves it), fxam reports
      the slot's class by the Intel table, and its sign in C1 unless the
      slot is empty or zero. */
  lemma FxamClassifies(s: State)
    requires GetStTag(s, 0) == TagEmpty || GetStTag(s, 0) == Classify(GetStFast(s, 0))
    ensures ClassOfCodes(CodesOf(Fxam(s).status)) ==
      (if GetStTag(s, 0) == TagEmpty then EmptyClass else ClassOf(GetStFast(s, 0)))
    ensures GetStTag(s, 0) != TagEmpty && !GetStFast(s, 0).Zero? ==>
      CodesOf(Fxam(s).status).c1 == GetStFast(s, 0).neg
  {
  }

  /** fxam trusts the tag: a zero left tagged valid by setStFast (an
      arithmetic result) is reported as a normal number, and a negative
      zero tagged zero loses its sign. */
  lemma FxamTrustsTag(s: State)
    ensures GetStTag(s, 0) == TagValid && GetStFast(s, 0).Zero? ==>
      ClassOfCodes(CodesOf(Fxam(s).status)) == NormalClass
    ensures GetStTag(s, 0) == TagZero ==>
      ClassOfCodes(CodesOf(Fxam(s).status)) == ZeroClass && !CodesOf(Fxam(s).status).c1
  {
  }
}
