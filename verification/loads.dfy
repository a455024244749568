/** The load handlers of rosettaRuntime/X87.cpp: fld from a register, from
    a constant and from 32-, 64- and 80-bit memory, fild and fbld. Each one
    pushes and then writes ST(0) with setSt, so the new top is tagged from
    the loaded value's class. */
module Loads {
  import opened Words
  import opened Values
  import opened X87State
  import opened Float80
  import opened Bcd
  import opened ByteOrder

  // ---------------------------------------------------------------------
  // The common shape: push, then setSt(0, v)

  /** The register side of `push(); setSt(0, v)`: TOP one lower, the new
      top slot holding v tagged by its class, every other slot and tag as
      in `s`, and the control word kept. The status word outside TOP is
      stated by each handler, since some change it first. */
  ghost predicate Pushed(s: State, r: State, v: Value) {
    && Top(r) == Top(s) - 1
    && r.st == s.st[Top(r) := v]
    && TagAt(r.tag, Top(r)) == Classify(v)
    && (forall q: Slot :: q != Top(r) ==> TagAt(r.tag, q) == TagAt(s.tag, q))
    && r.control == s.control
  }

  /** `push(); setSt(0, v)`: TOP moves down by one, the new top slot holds
      v tagged by its class, and nothing else changes but the TOP field. */
  function Load(s: State, v: Value): (r: State)
    ensures Top(r) == Top(s) - 1
    ensures r.st == s.st[Top(r) := v]
    ensures TagAt(r.tag, Top(r)) == Classify(v)
    ensures forall q: Slot :: q != Top(r) ==> TagAt(r.tag, q) == TagAt(s.tag, q)
    ensures SameOutside(r.status, s.status, TopOfStack) && r.control == s.control
    ensures Pushed(s, r, v)
  {
    var p := Push(s);
    assert StIndex(p, 0) == Top(p);
    SetSt(p, 0, v)
  }

  /** The loaded value reads back as ST(0), with no flag raised. */
  lemma LoadReadsBack(s: State, v: Value)
    ensures GetSt(Load(s, v), 0) == Read(v, Load(s, v))
  {
    var r := Load(s, v);
    assert StIndex(r, 0) == Top(r);
  }

  /** What was ST(i) is ST(i + 1) after a load, for i from 0 to 6. */
  lemma LoadShiftsStack(s: State, v: Value, i: bv32)
    requires i & 7 != 7
    ensures GetStFast(Load(s, v), i + 1) == GetStFast(s, i)
    ensures GetStTag(Load(s, v), i + 1) == GetStTag(s, i)
  {
    var p := Push(s);
    PushShiftsIndex(s, i);
    ShiftedSlotDiffers(p, i);
  }

  lemma ShiftedSlotDiffers(p: State, i: bv32)
    requires i & 7 != 7
    ensures StIndex(p, i + 1) != StIndex(p, 0)
  {
    StIndexLowBits(p, i + 1);
    LowBitsOfSuccessor(i);
  }

  /** Popping a loaded value leaves exactly what popping a bare push
      leaves: the status word of before and the pushed slot empty. */
  lemma LoadThenPop(s: State, v: Value)
    ensures Pop(Load(s, v)) == Pop(Push(s))
    ensures Pop(Load(s, v)).status == s.status
  {
    var p := Push(s);
    assert StIndex(p, 0) == Top(p);
    OverwriteThenEmpty(p.tag, Top(p), Classify(v));
    UpdateTwice(p.st, Top(p), v, Zero(false));
    PushThenPop(s);
  }

  /** pop() sets a slot's tag to empty whatever the field held. */
  lemma OverwriteThenEmpty(tag: bv16, p: Slot, t: Tag)
    ensures WithTag(tag, p, t) | (3 << TagShift(p)) == tag | (3 << TagShift(p))
  {
  }

  lemma UpdateTwice(st: Registers, p: Slot, v: Value, w: Value)
    ensures st[p := v][p := w] == st[p := w]
  {
  }

  // ---------------------------------------------------------------------
  // fld ST(i)

  /** x87_fld_STi: clear C1, read ST(i) (an empty slot reads as a quiet NaN
      and raises the stack-underflow flags), then load what was read. */
  function FldSt(s: State, i: bv32): (r: State)
    ensures GetSt(r, 0).value == GetSt(s, i).value
    ensures Top(r) == Top(s) - 1
    ensures !Has(r.status, C1)
    ensures SameOutside(r.status, s.status, C1 | StackUnderflow | TopOfStack) && r.control == s.control
    ensures TagAt(r.tag, Top(r)) == Classify(GetSt(s, i).value)
    ensures forall q: Slot :: q != Top(r) ==> r.st[q] == s.st[q] && TagAt(r.tag, q) == TagAt(s.tag, q)
  {
    var t := Recode(s, C1, 0);
    var a := GetSt(t, i);
    CopyRead(s, t, i, a);
    CopyStatus(s, t, i, a);
    CopySlots(s, t, i, a);
    Load(a.state, a.value)
  }

  /** Only the new top's slot and tag differ from the state fld found. */
  lemma CopySlots(s: State, t: State, i: bv32, a: Read)
    requires t == Recode(s, C1, 0) && a == GetSt(t, i)
    ensures TagAt(Load(a.state, a.value).tag, Top(Load(a.state, a.value))) == Classify(GetSt(s, i).value)
    ensures forall q: Slot :: q != Top(Load(a.state, a.value)) ==>
      Load(a.state, a.value).st[q] == s.st[q] && TagAt(Load(a.state, a.value).tag, q) == TagAt(s.tag, q)
  {
    ReadIgnoresFlags(s, t, i, C1);
    ReadFrame(t, i);
  }

  lemma CopyRead(s: State, t: State, i: bv32, a: Read)
    requires t == Recode(s, C1, 0) && a == GetSt(t, i)
    ensures GetSt(Load(a.state, a.value), 0).value == GetSt(s, i).value
  {
    ReadIgnoresFlags(s, t, i, C1);
    LoadReadsBack(a.state, a.value);
  }

  lemma CopyStatus(s: State, t: State, i: bv32, a: Read)
    requires t == Recode(s, C1, 0) && a == GetSt(t, i)
    ensures Top(Load(a.state, a.value)) == Top(s) - 1
    ensures !Has(Load(a.state, a.value).status, C1)
    ensures SameOutside(Load(a.state, a.value).status, s.status, C1 | StackUnderflow | TopOfStack)
    ensures Load(a.state, a.value).control == s.control
  {
    ReadFrame(t, i);
    SameOutsideChain(a.state.status, t.status, s.status, StackUnderflow, C1);
    SameTop(a.state, s, StackUnderflow | C1);
    var r := Load(a.state, a.value);
    SameOutsideChain(r.status, a.state.status, s.status, TopOfStack, StackUnderflow | C1);
  }

  /** After fld ST(i) the copy on top and its source, now one deeper, hold
      the same value. */
  lemma FldStCopies(s: State, i: bv32)
    requires GetStTag(s, i) != TagEmpty && i & 7 != 7
    ensures GetStFast(FldSt(s, i), 0) == GetStFast(FldSt(s, i), i + 1)
  {
    var t := Recode(s, C1, 0);
    ReadIgnoresFlags(s, t, i, C1);
    LoadShiftsStack(t, GetSt(t, i).value, i);
  }

  // ---------------------------------------------------------------------
  // fld1, fldz and the single-precision constants

  /** The X87Constant selector; `Unlisted` stands for every other code. */
  datatype Constant = One | ZeroConstant | Pi | Log2e | Loge2 | Log2t | Log102 | Unlisted

  /** The double each listed selector loads. The five transcendental
      constants are float literals, widened exactly to double. */
  function ConstantValue(c: Constant): Value
    requires c != Unlisted
  {
    match c
    case One => IntToValue(1)
    case ZeroConstant => Zero(false)
    case Pi => SingleValue(0x4049_0FDB)
    case Log2e => SingleValue(0x3FB8_AA3B)
    case Loge2 => SingleValue(0x3F31_7218)
    case Log2t => SingleValue(0x4054_9A78)
    case Log102 => SingleValue(0x3E9A_209A)
  }

  /** x87_fld_constant: a listed selector loads its constant; any other
      selector leaves the state as it was. */
  function FldConstant(s: State, c: Constant): (r: State)
    ensures c == Unlisted ==> r == s
    ensures c != Unlisted ==> Top(r) == Top(s) - 1 && GetSt(r, 0).value == ConstantValue(c)
    ensures c != Unlisted ==> Pushed(s, r, ConstantValue(c)) && SameOutside(r.status, s.status, TopOfStack)
  {
    if c == Unlisted then s
    else
      LoadReadsBack(s, ConstantValue(c));
      Load(s, ConstantValue(c))
  }

  /** fld1 and fldz load +1 and +0; the others load positive normal values. */
  lemma ConstantsTagged(s: State, c: Constant)
    requires c != Unlisted
    ensures c == ZeroConstant <==> GetStTag(FldConstant(s, c), 0) == TagZero
    ensures c != ZeroConstant ==> GetStTag(FldConstant(s, c), 0) == TagValid
    ensures c == One ==> Real(ConstantValue(c)) == 1.0
  {
    var r := Load(s, ConstantValue(c));
    assert StIndex(r, 0) == Top(r);
    if c == One {
      Pow2Nat53();
    } else if c != ZeroConstant {
      ConstantIsNormal(c);
    }
  }

  lemma ConstantIsNormal(c: Constant)
    requires c != Unlisted && c != One && c != ZeroConstant
    ensures ConstantValue(c).Normal? && !ConstantValue(c).neg
  {
  }

  /** fldpi loads pi rounded to single precision: 13176795 / 2^22, which
      agrees with pi to seven digits. */
  lemma PiLoaded()
    ensures IsFinite(ConstantValue(Pi))
    ensures Real(ConstantValue(Pi)) == 13176795.0 / 4194304.0
    ensures 3.1415926 < Real(ConstantValue(Pi)) < 3.1415928
  {
    assert Pow2(1) == 2.0;
  }

  /** fldl2e loads log2(e) rounded to single precision. */
  lemma Log2eLoaded()
    ensures IsFinite(ConstantValue(Log2e))
    ensures Real(ConstantValue(Log2e)) == 12102203.0 / 8388608.0
    ensures 1.4426950 < Real(ConstantValue(Log2e)) < 1.4426951
  {
    assert Pow2(0) == 1.0;
  }

  /** fldln2 loads ln(2) rounded to single precision. */
  lemma Loge2Loaded()
    ensures IsFinite(ConstantValue(Loge2))
    ensures Real(ConstantValue(Loge2)) == 1453635.0 / 2097152.0
    ensures 0.6931471 < Real(ConstantValue(Loge2)) < 0.6931472
  {
    assert Pow2(-1) == 0.5;
  }

  /** fldl2t loads log2(10) rounded to single precision. */
  lemma Log2tLoaded()
    ensures IsFinite(ConstantValue(Log2t))
    ensures Real(ConstantValue(Log2t)) == 1741647.0 / 524288.0
    ensures 3.3219280 < Real(ConstantValue(Log2t)) < 3.3219281
  {
    assert Pow2(1) == 2.0;
  }

  /** fldlg2 loads log10(2) rounded to single precision. */
  lemma Log102Loaded()
    ensures IsFinite(ConstantValue(Log102))
    ensures Real(ConstantValue(Log102)) == 5050445.0 / 16777216.0
    ensures 0.3010299 < Real(ConstantValue(Log102)) < 0.3010300
  {
    assert Pow2(-1) == 0.5;
    assert Pow2(-2) == 0.25;
  }

  // ---------------------------------------------------------------------
  // Loads from memory

  /** x87_fld_fp32: the float's value, widened exactly, pushed. */
  function FldFp32(s: State, bits: bv32): (r: State)
    ensures Top(r) == Top(s) - 1 && GetSt(r, 0).value == SingleValue(bits)
    ensures Pushed(s, r, SingleValue(bits)) && SameOutside(r.status, s.status, TopOfStack)
  {
    LoadReadsBack(s, SingleValue(bits));
    Load(s, SingleValue(bits))
  }

  /** x87_fld_fp64: the double's value pushed. */
  function FldFp64(s: State, bits: bv64): (r: State)
    ensures Top(r) == Top(s) - 1 && GetSt(r, 0).value == DoubleValue(bits)
    ensures Pushed(s, r, DoubleValue(bits)) && SameOutside(r.status, s.status, TopOfStack)
  {
    LoadReadsBack(s, DoubleValue(bits));
    Load(s, DoubleValue(bits))
  }

  /** The tag fld gives a binary64 pattern, read off its fields: zero for a
      zero, special for an all-ones exponent or a subnormal, valid otherwise. */
  lemma Fp64Tagged(s: State, bits: bv64)
    ensures GetStTag(FldFp64(s, bits), 0) == TagZero <==> bits & 0x7FFF_FFFF_FFFF_FFFF == 0
    ensures GetStTag(FldFp64(s, bits), 0) == TagSpecial <==>
      bits & 0x7FFF_FFFF_FFFF_FFFF != 0 && (bits & InfinityBits == InfinityBits || bits & InfinityBits == 0)
  {
    var r := Load(s, DoubleValue(bits));
    assert StIndex(r, 0) == Top(r);
  }

  /** The same for a binary32 pattern. */
  lemma Fp32Tagged(s: State, bits: bv32)
    ensures GetStTag(FldFp32(s, bits), 0) == TagZero <==> bits & 0x7FFF_FFFF == 0
    ensures GetStTag(FldFp32(s, bits), 0) == TagSpecial <==>
      bits & 0x7FFF_FFFF != 0 && (bits & 0x7F80_0000 == 0x7F80_0000 || bits & 0x7F80_0000 == 0)
  {
    var r := Load(s, SingleValue(bits));
    assert StIndex(r, 0) == Top(r);
  }

  /** x87_fld_fp80: ConvertX87RegisterToFloat64 ORs its flags into the
      status word, then the double is pushed. */
  function FldFp80(s: State, x: Extended): (r: State)
    ensures Top(r) == Top(s) - 1
    ensures GetSt(r, 0).value == DoubleValue(ToFloat64(x).bits)
    ensures Has(r.status, ToFloat64(x).flags)
    ensures Pushed(s, r, DoubleValue(ToFloat64(x).bits))
    ensures SameOutside(r.status, s.status | ToFloat64(x).flags, TopOfStack)
  {
    LoadDouble(s, ToFloat64(x))
  }

  /** A converted double pushed after its flags are ORed in. */
  function LoadDouble(s: State, d: Double): (r: State)
    requires d.flags & !ExceptionFlags == 0
    ensures Top(r) == Top(s) - 1
    ensures GetSt(r, 0).value == DoubleValue(d.bits)
    ensures Has(r.status, d.flags)
    ensures Pushed(s, r, DoubleValue(d.bits))
    ensures SameOutside(r.status, s.status | d.flags, TopOfStack)
  {
    var t := s.(status := s.status | d.flags);
    assert Top(t) == Top(s);
    LoadReadsBack(t, DoubleValue(d.bits));
    Load(t, DoubleValue(d.bits))
  }

  /** Loading the 80-bit widening of a normal double is loading the double:
      same value, no flag. */
  lemma Fp80OfWidenedDouble(s: State, bits: bv64)
    requires 0 < bits & InfinityBits < InfinityBits
    ensures FldFp80(s, FromFloat64(bits).value) == FldFp64(s, bits)
  {
    NormalRoundTrip(bits);
    assert s.(status := s.status | 0) == s;
  }

  /** An 80-bit NaN loads a quiet NaN and raises invalid operation. */
  lemma Fp80NaN(s: State, x: Extended)
    requires Biased(x) == 0x7FFF && x.mantissa != 0 && x.mantissa != IntegerBit
    ensures GetSt(FldFp80(s, x), 0).value.NaN?
    ensures Has(FldFp80(s, x).status, InvalidOperation)
  {
  }

  /** x87_fild: the 64-bit integer converted to double and pushed. */
  function Fild(s: State, n: Int64): (r: State)
    ensures Top(r) == Top(s) - 1 && GetSt(r, 0).value == IntToValue(n)
    ensures Pushed(s, r, IntToValue(n)) && SameOutside(r.status, s.status, TopOfStack)
  {
    LoadReadsBack(s, IntToValue(n));
    Load(s, IntToValue(n))
  }

  /** An integer below 2^53 in magnitude loads exactly, tagged zero for 0
      and valid otherwise. */
  lemma FildExact(s: State, n: Int64)
    requires -0x20_0000_0000_0000 < n < 0x20_0000_0000_0000
    ensures IsFinite(GetSt(Fild(s, n), 0).value) && Real(GetSt(Fild(s, n), 0).value) == n as real
    ensures GetStTag(Fild(s, n), 0) == (if n == 0 then TagZero else TagValid)
  {
    var r := Load(s, IntToValue(n));
    assert StIndex(r, 0) == Top(r);
  }

  /** x87_fbld: clear C1, copy the ten bytes out of the two words, decode
      them with BCD2Double and load the result. */
  function Fbld(s: State, low: bv64, high: bv64): (r: State)
    ensures Top(r) == Top(s) - 1
    ensures GetSt(r, 0).value == BcdValue(Split(low, high))
    ensures !Has(r.status, C1)
    ensures Pushed(s, r, BcdValue(Split(low, high))) && SameOutside(r.status, s.status, C1 | TopOfStack)
  {
    var t := Recode(s, C1, 0);
    SameTop(t, s, C1);
    SameOutsideChain(Load(t, BcdValue(Split(low, high))).status, t.status, s.status, TopOfStack, C1);
    LoadReadsBack(t, BcdValue(Split(low, high)));
    Load(t, BcdValue(Split(low, high)))
  }

  /** fbld of valid digits below 2^53 loads the signed integer they spell. */
  lemma FbldLoadsDigits(s: State, low: bv64, high: bv64)
    requires ValidBcd(Split(low, high)) && Magnitude(Split(low, high)) < Pow2Nat(53)
    ensures IsFinite(GetSt(Fbld(s, low, high), 0).value)
    ensures Real(GetSt(Fbld(s, low, high), 0).value) ==
      var m := Magnitude(Split(low, high)) as real; if high & 0x8000 != 0 then -m else m
  {
    SignByte(high);
  }

  lemma SignByte(high: bv64)
    ensures Byte64(high, 8) & 0x80 != 0 <==> high & 0x8000 != 0
  {
  }
}
