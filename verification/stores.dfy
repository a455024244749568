/** The store handlers of rosettaRuntime/X87.cpp: fist and fistt to 16-,
    32- and 64-bit integers, fst to a register, to 32-, 64- and 80-bit
    memory, and fbstp. The memory forms read ST(0) with getStConst and hand
    back the stored datum with a status word (X87ResultStatusWord); they
    never change the state. */
module Stores {
  import opened Words
  import opened Wrappers
  import opened Values
  import opened X87State
  import opened Float80
  import opened Float32
  import opened Widen32
  import opened Bcd
  import opened ByteOrder
  import opened Loads

  /** What a memory store returns: the datum and the status word. */
  datatype Stored<T> = Stored(value: T, status: bv16)

  // ---------------------------------------------------------------------
  // fist and fistt

  datatype Width = Word16 | Word32 | Word64

  function MinOf(w: Width): int {
    match w
    case Word16 => -0x8000
    case Word32 => -0x8000_0000
    case Word64 => -0x8000_0000_0000_0000
  }

  function MaxOf(w: Width): int {
    match w
    case Word16 => 0x7FFF
    case Word32 => 0x7FFF_FFFF
    case Word64 => 0x7FFF_FFFF_FFFF_FFFF
  }

  predicate Fits(w: Width, n: int) {
    MinOf(w) <= n <= MaxOf(w)
  }

  /** C++ `a >= b` on doubles: false whenever either side is a NaN. */
  predicate AtLeast(a: Value, b: Value) {
    !a.NaN? && !b.NaN? && !Less(a, b)
  }

  /** The integer std::nearbyint, std::floor, std::ceil or the cast yields
      for each rounding mode (nearbyint taken under round-to-nearest). */
  function RoundBy(m: RoundingMode, x: real): (n: int)
    ensures m == ToNearest ==> n == RoundHalfEven(x)
    ensures m == Down ==> n as real <= x < n as real + 1.0
    ensures m == Up ==> n as real - 1.0 < x <= n as real
    ensures m == ToZero ==> n == Trunc(x)
  {
    match m
    case ToNearest => RoundHalfEven(x)
    case Down => Floor(x)
    case Up => Ceil(x)
    case ToZero => Trunc(x)
  }

  /** The lower saturation test, `value <= static_cast<double>(MIN)`. */
  predicate TooSmall(w: Width, v: Value) {
    AtLeast(IntToValue(MinOf(w)), v)
  }

  /** The upper saturation test as the source writes it: `>` against
      INT16_MAX, `>=` against INT32_MAX and INT64_MAX converted to double. */
  predicate TooLargeAsWritten(w: Width, v: Value) {
    if w == Word16 then Less(IntToValue(MaxOf(w)), v) else AtLeast(v, IntToValue(MaxOf(w)))
  }

  /** The upper test as meant: above the largest representable integer.
      INT16_MAX and INT32_MAX convert exactly, so `>` is the test; INT64_MAX
      rounds up to 2^63, which is itself out of range, so `>=` is. */
  predicate TooLarge(w: Width, v: Value) {
    if w == Word64 then AtLeast(v, IntToValue(MaxOf(w))) else Less(IntToValue(MaxOf(w)), v)
  }

  /** The tail every fist shares: saturate to MIN with C1 set, or round by
      the control word and cast. A cast of a NaN or of a rounded value the
      type cannot hold is undefined behaviour, modelled as None. */
  function Saturate(w: Width, c: Peek, control: bv16, large: bool): (r: Option<Stored<int>>)
    ensures large || TooSmall(w, c.value) ==> r == Some(Stored(MinOf(w), c.status | C1))
    ensures !large && !TooSmall(w, c.value) ==>
      (r.Some? <==> IsFinite(c.value) && Fits(w, RoundBy(RoundingOf(control), Real(c.value))))
    ensures !large && !TooSmall(w, c.value) && r.Some? ==>
      r.value == Stored(RoundBy(RoundingOf(control), Real(c.value)), c.status)
  {
    if large || TooSmall(w, c.value) then Some(Stored(MinOf(w), c.status | C1))
    else if !IsFinite(c.value) then None
    else
      var n := RoundBy(RoundingOf(control), Real(c.value));
      if Fits(w, n) then Some(Stored(n, c.status)) else None
  }

  /** x87_fist_i16, x87_fist_i32 and x87_fist_i64 as written: the upper
      test for 32 bits is `>=` against INT32_MAX, so only that width can
      part from the corrected store. */
  function FistAsWritten(s: State, w: Width): (r: Option<Stored<int>>)
    ensures w != Word32 ==> r == Fist(s, w)
    ensures TooLargeAsWritten(w, GetSt(s, 0).value) || TooSmall(w, GetSt(s, 0).value) ==>
      r == Some(Stored(MinOf(w), GetStConst(s, 0).status | C1))
    ensures !TooLargeAsWritten(w, GetSt(s, 0).value) && !TooSmall(w, GetSt(s, 0).value) ==>
      (r.Some? <==> IsFinite(GetSt(s, 0).value) && Fits(w, RoundBy(RoundingOf(s.control), Real(GetSt(s, 0).value))))
    ensures !TooLargeAsWritten(w, GetSt(s, 0).value) && !TooSmall(w, GetSt(s, 0).value) && r.Some? ==>
      r.value == Stored(RoundBy(RoundingOf(s.control), Real(GetSt(s, 0).value)), GetStConst(s, 0).status)
  {
    var c := GetStConst(s, 0);
    Saturate(w, c, s.control, TooLargeAsWritten(w, c.value))
  }

  /** fist with the upper test corrected for 32 bits. Out-of-range values
      and both infinities store MIN with C1 set; anything else is rounded by
      the control word's mode and is defined exactly when the rounded value
      fits, which for 16 and 32 bits leaves only a NaN (an empty ST(0)
      included) at the undefined cast. */
  function Fist(s: State, w: Width): (r: Option<Stored<int>>)
    ensures TooLarge(w, GetSt(s, 0).value) || TooSmall(w, GetSt(s, 0).value) ==>
      r == Some(Stored(MinOf(w), GetStConst(s, 0).status | C1))
    ensures r.Some? && Has(r.value.status, C1) ==> r.value.value == MinOf(w)
    ensures w != Word64 ==> (r.None? <==> GetSt(s, 0).value.NaN?)
    ensures r.Some? ==> Fits(w, r.value.value)
    ensures !TooLarge(w, GetSt(s, 0).value) && !TooSmall(w, GetSt(s, 0).value) ==>
      (r.Some? <==> IsFinite(GetSt(s, 0).value) && Fits(w, RoundBy(RoundingOf(s.control), Real(GetSt(s, 0).value))))
    ensures !TooLarge(w, GetSt(s, 0).value) && !TooSmall(w, GetSt(s, 0).value) && r.Some? ==>
      r.value == Stored(RoundBy(RoundingOf(s.control), Real(GetSt(s, 0).value)), GetStConst(s, 0).status)
  {
    var c := GetStConst(s, 0);
    FistDefined(w, c, s.control);
    Saturate(w, c, s.control, TooLarge(w, c.value))
  }

  lemma FistDefined(w: Width, c: Peek, control: bv16)
    ensures w != Word64 ==> (Saturate(w, c, control, TooLarge(w, c.value)).None? <==> c.value.NaN?)
  {
    var v := c.value;
    if w != Word64 && !TooLarge(w, v) && !TooSmall(w, v) && IsFinite(v) {
      var lo := MinOf(w);
      var hi := MaxOf(w);
      assert Real(IntToValue(lo)) == lo as real && Real(IntToValue(hi)) == hi as real;
      RoundingRespectsIntegerBounds(Real(v), lo, hi);
    }
  }

  /** A value that is already an integer in range stores as itself, with C1
      clear, whatever the rounding mode. */
  lemma FistStoresIntegers(s: State, w: Width, n: int)
    requires IsFinite(GetSt(s, 0).value) && Real(GetSt(s, 0).value) == n as real
    requires MinOf(w) < n <= MaxOf(w)
    ensures Fist(s, w) == Some(Stored(n, GetStConst(s, 0).status))
  {
    var c := GetStConst(s, 0);
    NotSaturated(w, c.value);
    RoundIntegral(RoundingOf(s.control), n);
  }

  /** A finite value above MIN and at most MAX passes both saturation tests. */
  lemma NotSaturated(w: Width, v: Value)
    requires IsFinite(v) && MinOf(w) as real < Real(v) <= MaxOf(w) as real
    ensures !TooLarge(w, v) && !TooSmall(w, v)
  {
    if w == Word64 {
      NotSaturated64(v);
    } else {
      NotSaturatedNarrow(w, v);
    }
  }

  lemma NotSaturatedNarrow(w: Width, v: Value)
    requires w != Word64
    requires IsFinite(v) && MinOf(w) as real < Real(v) <= MaxOf(w) as real
    ensures !TooLarge(w, v) && !TooSmall(w, v)
  {
    assert Real(IntToValue(MinOf(w))) == MinOf(w) as real;
    assert Real(IntToValue(MaxOf(w))) == MaxOf(w) as real;
  }

  lemma NotSaturated64(v: Value)
    requires IsFinite(v) && MinOf(Word64) as real < Real(v) <= MaxOf(Word64) as real
    ensures !TooLarge(Word64, v) && !TooSmall(Word64, v)
  {
    Int64MaxRoundsUp();
    Int64MinExact();
    StrictlyBelow(v, IntToValue(MaxOf(Word64)));
    StrictlyBelow(IntToValue(MinOf(Word64)), v);
  }

  lemma StrictlyBelow(a: Value, b: Value)
    requires IsFinite(a) && IsFinite(b) && Real(a) < Real(b)
    ensures !AtLeast(a, b) && AtLeast(b, a)
  {
  }

  lemma RoundIntegral(m: RoundingMode, n: int)
    ensures RoundBy(m, n as real) == n
  {
  }

  /** The 32-bit store as written rejects INT32_MAX itself: the exactly
      representable 2147483647.0 is stored as INT32_MIN with C1 set. */
  lemma AsWrittenRejectsInt32Max(s: State)
    requires GetStTag(s, 0) != TagEmpty && GetStFast(s, 0) == IntToValue(0x7FFF_FFFF)
    ensures FistAsWritten(s, Word32) == Some(Stored(-0x8000_0000, GetStConst(s, 0).status | C1))
    ensures Fist(s, Word32) == Some(Stored(0x7FFF_FFFF, GetStConst(s, 0).status))
  {
    FistStoresIntegers(s, Word32, 0x7FFF_FFFF);
  }

  /** Outside that one value the source's tests are the corrected ones. */
  lemma AsWrittenAgrees(s: State, w: Width)
    requires w == Word32 ==> !(IsFinite(GetSt(s, 0).value) && Real(GetSt(s, 0).value) == 0x7FFF_FFFF as real)
    ensures FistAsWritten(s, w) == Fist(s, w)
  {
    var v := GetStConst(s, 0).value;
    if w == Word32 {
      assert Real(IntToValue(0x7FFF_FFFF)) == 0x7FFF_FFFF as real;
      assert TooLargeAsWritten(w, v) == TooLarge(w, v);
    }
  }

  /** fild then fist to 64 bits gives the integer back, for every integer a
      double holds exactly. */
  lemma FildThenFist(s: State, n: Int64)
    requires -0x20_0000_0000_0000 < n < 0x20_0000_0000_0000
    ensures Fist(Fild(s, n), Word64).Some? && Fist(Fild(s, n), Word64).value.value == n
  {
    FildExact(s, n);
    FistStoresIntegers(Fild(s, n), Word64, n);
  }

  /** x87_fistt_i16/i32/i64: the C++ cast, which truncates; undefined for a
      NaN, an infinity or a truncation the type cannot hold. */
  function Fistt(s: State, w: Width): (r: Option<Stored<int>>)
    ensures r.Some? <==> IsFinite(GetSt(s, 0).value) && Fits(w, Trunc(Real(GetSt(s, 0).value)))
    ensures r.Some? ==> r.value.status == GetStConst(s, 0).status
    ensures r.Some? ==> r.value.value == Trunc(Real(GetSt(s, 0).value))
  {
    var c := GetStConst(s, 0);
    if IsFinite(c.value) && Fits(w, Trunc(Real(c.value))) then Some(Stored(Trunc(Real(c.value)), c.status))
    else None
  }

  /** Where fist does not saturate, fistt is fist under the round-to-zero
      mode. */
  lemma FisttIsFistTowardZero(s: State, w: Width)
    requires RoundingOf(s.control) == ToZero
    requires IsFinite(GetSt(s, 0).value) && MinOf(w) as real < Real(GetSt(s, 0).value) <= MaxOf(w) as real
    ensures Fistt(s, w) == Fist(s, w)
  {
    TruncatingSaturate(w, GetStConst(s, 0), s.control);
  }

  lemma TruncatingSaturate(w: Width, c: Peek, control: bv16)
    requires RoundingOf(control) == ToZero
    requires IsFinite(c.value) && MinOf(w) as real < Real(c.value) <= MaxOf(w) as real
    ensures Saturate(w, c, control, TooLarge(w, c.value)) == Some(Stored(Trunc(Real(c.value)), c.status))
  {
    NotSaturated(w, c.value);
    RoundingRespectsIntegerBounds(Real(c.value), MinOf(w), MaxOf(w));
  }

  // ---------------------------------------------------------------------
  // fst to a register

  /** x87_fst_STi: clear C1, read ST(0), write it to ST(i) with setSt, and
      pop when asked. Only ST(i), its tag, the popped slot and the status
      bits C1, 0x41 and TOP change. */
  function FstSt(s: State, i: bv32, pop: bool): (r: State)
    ensures !pop ==> GetStFast(r, i) == GetSt(s, 0).value
    ensures !pop ==> Top(r) == Top(s)
    ensures pop ==> Top(r) == Top(s) + 1
    ensures !Has(r.status, C1)
    ensures SameOutside(r.status, s.status, C1 | StackUnderflow | TopOfStack) && r.control == s.control
    ensures Has(r.status, StackUnderflow) <==> GetStTag(s, 0) == TagEmpty || Has(s.status, StackUnderflow)
    ensures !pop || StIndex(s, i) != Top(s) ==>
      r.st[StIndex(s, i)] == GetSt(s, 0).value && TagAt(r.tag, StIndex(s, i)) == Classify(GetSt(s, 0).value)
    ensures pop ==> r.st[Top(s)] == Zero(false) && TagAt(r.tag, Top(s)) == TagEmpty
    ensures forall q: Slot :: q != StIndex(s, i) && (!pop || q != Top(s)) ==>
      r.st[q] == s.st[q] && TagAt(r.tag, q) == TagAt(s.tag, q)
  {
    var t := Recode(s, C1, 0);
    var a := GetSt(t, 0);
    StoreFacts(s, t, i, a);
    var u := SetSt(a.state, i, a.value);
    if pop then PopAfterStore(s, u, StIndex(s, i), GetSt(s, 0).value); Pop(u) else u
  }

  /** setSt(i, getSt(0)) on the C1-cleared state. */
  lemma StoreFacts(s: State, t: State, i: bv32, a: Read)
    requires t == Recode(s, C1, 0) && a == GetSt(t, 0)
    ensures GetStFast(SetSt(a.state, i, a.value), i) == GetSt(s, 0).value
    ensures Top(SetSt(a.state, i, a.value)) == Top(s)
    ensures !Has(SetSt(a.state, i, a.value).status, C1)
    ensures StoredSlot(s, SetSt(a.state, i, a.value), StIndex(s, i), GetSt(s, 0).value)
  {
    ReadIgnoresFlags(s, t, 0, C1);
    ReadFrame(t, 0);
    StoreStatus(s, t, a);
    WrittenSlot(s, a.state, SetSt(a.state, i, a.value), i, a.value);
  }

  /** setSt on a state that differs from `s` only in its status word. */
  lemma WrittenSlot(s: State, m: State, u: State, i: bv32, v: Value)
    requires m == s.(status := m.status) && Top(m) == Top(s)
    requires SameOutside(m.status, s.status, C1 | StackUnderflow) && !Has(m.status, C1)
    requires Has(m.status, StackUnderflow) <==> GetStTag(s, 0) == TagEmpty || Has(s.status, StackUnderflow)
    requires u == SetSt(m, i, v)
    ensures GetStFast(u, i) == v && Top(u) == Top(s) && !Has(u.status, C1)
    ensures StoredSlot(s, u, StIndex(s, i), v)
  {
    assert StIndex(m, i) == StIndex(s, i);
    assert StIndex(u, i) == StIndex(s, i);
  }

  /** `u` is `s` with `v` stored in slot `p` by setSt, C1 cleared and the
      stack-underflow flags raised exactly when ST(0) was empty. */
  ghost predicate StoredSlot(s: State, u: State, p: Slot, v: Value) {
    && u.st == s.st[p := v]
    && TagAt(u.tag, p) == Classify(v)
    && (forall q: Slot :: q != p ==> TagAt(u.tag, q) == TagAt(s.tag, q))
    && SameOutside(u.status, s.status, C1 | StackUnderflow)
    && !Has(u.status, C1)
    && (Has(u.status, StackUnderflow) <==> GetStTag(s, 0) == TagEmpty || Has(s.status, StackUnderflow))
    && u.control == s.control
  }

  lemma StoreStatus(s: State, t: State, a: Read)
    requires t == Recode(s, C1, 0) && a == GetSt(t, 0)
    ensures Top(a.state) == Top(s) && !Has(a.state.status, C1)
    ensures SameOutside(a.state.status, s.status, C1 | StackUnderflow)
    ensures Has(a.state.status, StackUnderflow) <==> GetStTag(s, 0) == TagEmpty || Has(s.status, StackUnderflow)
  {
    ReadFrame(t, 0);
    SameOutsideChain(a.state.status, t.status, s.status, StackUnderflow, C1);
    SameTop(a.state, s, StackUnderflow | C1);
  }

  /** The pop after the store empties the old top and moves only TOP. */
  lemma PopAfterStore(s: State, u: State, p: Slot, v: Value)
    requires StoredSlot(s, u, p, v) && Top(u) == Top(s)
    ensures SameOutside(Pop(u).status, s.status, C1 | StackUnderflow | TopOfStack)
    ensures !Has(Pop(u).status, C1)
    ensures Has(Pop(u).status, StackUnderflow) <==> GetStTag(s, 0) == TagEmpty || Has(s.status, StackUnderflow)
    ensures p != Top(s) ==> Pop(u).st[p] == v && TagAt(Pop(u).tag, p) == Classify(v)
    ensures forall q: Slot :: q != p && q != Top(s) ==> Pop(u).st[q] == s.st[q] && TagAt(Pop(u).tag, q) == TagAt(s.tag, q)
  {
    SameOutsideChain(Pop(u).status, u.status, s.status, TopOfStack, C1 | StackUnderflow);
  }

  /** fstp ST(1) drops ST(1) and leaves ST(0)'s value on top. */
  lemma FstpOneKeepsTop(s: State)
    ensures GetStFast(FstSt(s, 1, true), 0) == GetSt(s, 0).value
  {
    var t := Recode(s, C1, 0);
    var a := GetSt(t, 0);
    var u := SetSt(a.state, 1, a.value);
    StoreFacts(s, t, 1, a);
    PopShiftsIndex(u, 0);
  }

  // ---------------------------------------------------------------------
  // fst to memory

  /** x87_fst_fp32: getStConst32, which narrows the double to float with the
      host conversion `narrow`. */
  function Fst32(s: State, narrow: Value -> Value): (r: Stored<Value>)
    ensures GetStTag(s, 0) != TagEmpty ==> r.value == narrow(GetStFast(s, 0))
    ensures GetStTag(s, 0) == TagEmpty ==> r.value == QuietNaN && Has(r.status, StackUnderflow)
    ensures !Has(r.status, C1)
    ensures GetStTag(s, 0) != TagEmpty ==> r.status == s.status & !C1
    ensures GetStTag(s, 0) == TagEmpty ==> r.status == (s.status & !C1) | StackUnderflow
  {
    var c := GetStConst32(s, 0, narrow);
    Stored(c.value, c.status)
  }

  /** A float loaded and stored back is the float, given a narrowing that
      leaves a value already in single precision alone. */
  lemma Fp32LoadThenStore(s: State, bits: bv32, narrow: Value -> Value)
    requires narrow(SingleValue(bits)) == SingleValue(bits)
    ensures Fst32(FldFp32(s, bits), narrow).value == SingleValue(bits)
  {
    var r := Load(s, SingleValue(bits));
    assert StIndex(r, 0) == Top(r);
  }

  /** x87_fst_fp64: the double in ST(0), as getStConst reports it. */
  function Fst64(s: State): (r: Stored<Value>)
    ensures r.value == GetSt(s, 0).value
    ensures SameOutside(r.status, GetSt(s, 0).state.status, C1) && !Has(r.status, C1)
  {
    var c := GetStConst(s, 0);
    Stored(c.value, c.status)
  }

  /** A double loaded and stored back is the double, with no flag raised. */
  lemma Fp64LoadThenStore(s: State, bits: bv64)
    ensures Fst64(FldFp64(s, bits)).value == DoubleValue(bits)
    ensures Fst64(FldFp64(s, bits)).status == FldFp64(s, bits).status & !C1
  {
    var r := Load(s, DoubleValue(bits));
    assert StIndex(r, 0) == Top(r);
  }

  /** x87_fst_fp80 as written: the double narrowed to float (`narrowBits`,
      the host conversion and bit_cast together), then widened to 80 bits
      with the wrapping subnormal exponent. */
  function Fst80AsWritten(s: State, narrowBits: Value -> bv32): (r: Stored<Extended>)
    ensures r.status == GetStConst(s, 0).status
    ensures r.value == FromFloat32AsWritten(narrowBits(GetSt(s, 0).value))
  {
    var c := GetStConst(s, 0);
    Stored(FromFloat32AsWritten(narrowBits(c.value)), c.status)
  }

  /** x87_fst_fp80 with the subnormal exponent computed without wrapping. */
  function Fst80(s: State, narrowBits: Value -> bv32): (r: Stored<Extended>)
    ensures r.status == GetStConst(s, 0).status
    ensures r.value.exponent & 0x8000 == SignOf32(narrowBits(GetSt(s, 0).value))
    ensures Exponent32(narrowBits(GetSt(s, 0).value)) != 0 ==> r == Fst80AsWritten(s, narrowBits)
  {
    var c := GetStConst(s, 0);
    Stored(FromFloat32(narrowBits(c.value)), c.status)
  }

  /** A normal float loaded and stored as 80 bits narrows back to the same
      float with no flag, given a narrowing that returns a float's own bits. */
  lemma Fp32LoadThenStore80(s: State, bits: bv32, narrowBits: Value -> bv32)
    requires 0 < Exponent32(bits) < 0xFF
    requires narrowBits(SingleValue(bits)) == bits
    ensures ToFloat32(Fst80(FldFp32(s, bits), narrowBits).value) == Some(Single(bits, 0))
  {
    var r := Load(s, SingleValue(bits));
    assert StIndex(r, 0) == Top(r);
    NormalRoundTrip32(bits);
  }

  // ---------------------------------------------------------------------
  // fbstp

  /** fbstp's outcome: the image handed back and the state after the pop. */
  datatype BcdStore = BcdStore(image: Image, state: State)

  /** x87_fbstp: read ST(0) (an empty slot reads as NaN and raises the
      stack-underflow flags), pop, and encode what was read. C1 is left as
      it was. */
  function Fbstp(s: State): (r: BcdStore)
    ensures r.image == Join(EncodeBcd(GetSt(s, 0).value))
    ensures Top(r.state) == Top(s) + 1
    ensures r.state.st[Top(s)] == Zero(false) && TagAt(r.state.tag, Top(s)) == TagEmpty
    ensures forall q: Slot :: q != Top(s) ==> r.state.st[q] == s.st[q] && TagAt(r.state.tag, q) == TagAt(s.tag, q)
    ensures SameOutside(r.state.status, s.status, StackUnderflow | TopOfStack) && r.state.control == s.control
    ensures Has(r.state.status, StackUnderflow) <==> GetStTag(s, 0) == TagEmpty || Has(s.status, StackUnderflow)
  {
    var a := GetSt(s, 0);
    ReadFrame(s, 0);
    SameTop(a.state, s, StackUnderflow);
    PopAfterRead(s, a.state);
    BcdStore(Join(EncodeBcd(a.value)), Pop(a.state))
  }

  /** Popping the state getSt(0) left. */
  lemma PopAfterRead(s: State, m: State)
    requires m == GetSt(s, 0).state && Top(m) == Top(s)
    ensures SameOutside(Pop(m).status, s.status, StackUnderflow | TopOfStack)
    ensures Has(Pop(m).status, StackUnderflow) <==> GetStTag(s, 0) == TagEmpty || Has(s.status, StackUnderflow)
    ensures forall q: Slot :: q != Top(s) ==> Pop(m).st[q] == s.st[q] && TagAt(Pop(m).tag, q) == TagAt(s.tag, q)
  {
    ReadFrame(s, 0);
    SameOutsideChain(Pop(m).status, m.status, s.status, TopOfStack, StackUnderflow);
  }

  /** fbld then fbstp hands back the two words fbld was given (the defined
      part of the second), and leaves the state fbld found with C1 clear,
      for valid digits below 2^53. */
  lemma FbldThenFbstp(s: State, low: bv64, high: bv64)
    requires ValidBcd(Split(low, high)) && Magnitude(Split(low, high)) < Pow2Nat(53)
    ensures Fbstp(Fbld(s, low, high)).image == Image(low, (high & 0xFFFF) as bv16)
    ensures Fbstp(Fbld(s, low, high)).state.status == s.status & !C1
  {
    var t := Recode(s, C1, 0);
    var v := BcdValue(Split(low, high));
    LoadReadsBack(t, v);
    LoadThenPop(t, v);
    LoadThenStore(Split(low, high));
    JoinSplit(low, high);
  }
}
