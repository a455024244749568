/** The emulated x87 register file of the double-slot build
    (rosettaRuntime/X87State.h, struct X87State): control, status and tag
    words plus eight physical slots, and the primitives every handler is
    built from. Physical slot numbers are `bv3`, so the source's `& 7`
    wrap-around is the arithmetic of the type itself. Logical offsets
    ST(i) arrive as `uint32_t`, modelled as `bv32`. */
module X87State {
  import opened Words
  import opened Values

  type Slot = bv3

  type Registers = s: seq<Value> | |s| == 8
    witness [Zero(false), Zero(false), Zero(false), Zero(false), Zero(false), Zero(false), Zero(false), Zero(false)]

  const ZeroRegisters: Registers :=
    [Zero(false), Zero(false), Zero(false), Zero(false), Zero(false), Zero(false), Zero(false), Zero(false)]

  /** tagWord is `int16_t` in the source; every operation on it (`>>` by at
      most 14 then `& 3`, `&=`, `|=`) agrees bit for bit with these `bv16`
      operations. */
  datatype State = State(control: bv16, status: bv16, tag: bv16, st: Registers)

  /** A read that may raise flags: the value read and the state afterwards. */
  datatype Read = Read(value: Value, state: State)

  /** A read-only query: the value and the status word it proposes. */
  datatype Peek = Peek(value: Value, status: bv16)

  // ---------------------------------------------------------------------
  // Field access

  /** topIndex(): the TOP field, status bits 11-13. */
  function Top(s: State): (t: Slot)
    ensures s.status & TopOfStack == (t as bv16) << 11
  {
    ((s.status >> 11) & 7) as bv3
  }

  /** The status word with its TOP field replaced, as push/pop/fincstp write it. */
  function WithTop(status: bv16, t: Slot): (r: bv16)
    ensures r & TopOfStack == (t as bv16) << 11
    ensures SameOutside(r, status, TopOfStack)
  {
    (status & !TopOfStack) | ((t as bv16) << 11)
  }

  /** getStIndex(i): the physical slot holding ST(i). The 32-bit sum
      `stOffset + topIndex()` may wrap, which leaves its low three bits alone. */
  function StIndex(s: State, i: bv32): (p: Slot)
    ensures p - Top(s) == (i & 7) as bv3
  {
    ((i + Top(s) as bv32) & 7) as bv3
  }

  /** Bit position of a slot's 2-bit field in the tag word. */
  function TagShift(p: Slot): bv16 {
    (p as bv16) * 2
  }

  /** The two raw bits of slot p's tag. */
  function Field(tag: bv16, p: Slot): (b: bv16)
    ensures b < 4
  {
    (tag >> TagShift(p)) & 3
  }

  /** The tag of physical slot p, decoded from its two bits. */
  function TagAt(tag: bv16, p: Slot): Tag {
    TagOfCode(Field(tag, p))
  }

  /** The tag a stored value receives in setSt: zero for both zeros,
      special for NaN, infinity and subnormals, valid otherwise. */
  function Classify(v: Value): (t: Tag)
    ensures t != TagEmpty
    ensures t == TagZero <==> v.Zero?
    ensures t == TagSpecial <==> v.NaN? || v.Inf? || v.Subnormal?
  {
    match v
    case Zero(_) => TagZero
    case NaN(_) => TagSpecial
    case Inf(_) => TagSpecial
    case Subnormal(_, _) => TagSpecial
    case Normal(_, _) => TagValid
  }

  /** The tag word with slot p's field cleared (`tagWord &= ~(3 << p*2)`). */
  function ClearTag(tag: bv16, p: Slot): (r: bv16)
    ensures TagAt(r, p) == TagValid
    ensures forall q: Slot :: q != p ==> TagAt(r, q) == TagAt(tag, q)
  {
    tag & !(3 << TagShift(p))
  }

  /** The tag word with slot p's field replaced by t (clear, then OR in). */
  function WithTag(tag: bv16, p: Slot, t: Tag): (r: bv16)
    ensures TagAt(r, p) == t
    ensures forall q: Slot :: q != p ==> TagAt(r, q) == TagAt(tag, q)
  {
    (tag & !(3 << TagShift(p))) | (TagCode(t) << TagShift(p))
  }

  // ---------------------------------------------------------------------
  // Construction

  /** X87State() and x87_set_init_state: control 0x037F, status 0, every
      tag empty, every slot +0.0. */
  function Initial(): (s: State)
    ensures Top(s) == 0
    ensures forall p: Slot :: TagAt(s.tag, p) == TagEmpty
    ensures forall p: Slot :: s.st[p] == Zero(false)
    ensures Has(s.control, ExceptionMasks)
    ensures s.control & PrecisionControl == Precision64Bit
    ensures RoundingOf(s.control) == ToNearest
    ensures CodesOf(s.status) == Codes(false, false, false, false)
    ensures s.status == 0 && s.control == 0x037F
  {
    State(0x037F, 0x0000, 0xFFFF, ZeroRegisters)
  }

  // ---------------------------------------------------------------------
  // Reads

  /** getStTag(i). */
  function GetStTag(s: State, i: bv32): Tag {
    TagAt(s.tag, StIndex(s, i))
  }

  /** getSt(i): an empty slot reads as a quiet NaN and raises stack fault and
      invalid operation in the state; any other slot reads its value and
      leaves the state alone. */
  function GetSt(s: State, i: bv32): (r: Read)
    ensures GetStTag(s, i) == TagEmpty ==>
      && r.value == QuietNaN
      && Has(r.state.status, StackUnderflow)
      && SameOutside(r.state.status, s.status, StackUnderflow)
      && r.state == s.(status := r.state.status)
    ensures GetStTag(s, i) != TagEmpty ==> r.value == s.st[StIndex(s, i)] && r.state == s
  {
    var p := StIndex(s, i);
    if TagAt(s.tag, p) == TagEmpty then
      Read(QuietNaN, s.(status := s.status | StackUnderflow))
    else
      Read(s.st[p], s)
  }

  /** getStConst(i): the same outcome as getSt, reported through the returned
      status word (with C1 cleared) instead of the state. */
  function GetStConst(s: State, i: bv32): (r: Peek)
    ensures r.value == GetSt(s, i).value
    ensures !Has(r.status, C1)
    ensures SameOutside(r.status, GetSt(s, i).state.status, C1)
  {
    var p := StIndex(s, i);
    var status := s.status & !C1;
    if TagAt(s.tag, p) == TagEmpty then
      Peek(QuietNaN, status | StackUnderflow)
    else
      Peek(s.st[p], status)
  }

  /** getStConst32(i): as getStConst, with the stored double narrowed to float
      by `narrow` (the host conversion, a parameter here). The empty case
      yields the float quiet NaN, again with a clear sign. */
  function GetStConst32(s: State, i: bv32, narrow: Value -> Value): (r: Peek)
    ensures r.status == GetStConst(s, i).status
    ensures GetStTag(s, i) == TagEmpty ==> r.value == QuietNaN
    ensures GetStTag(s, i) != TagEmpty ==> r.value == narrow(s.st[StIndex(s, i)])
  {
    var c := GetStConst(s, i);
    if GetStTag(s, i) == TagEmpty then Peek(QuietNaN, c.status)
    else Peek(narrow(c.value), c.status)
  }

  /** getStFast(i): the stored value, with no tag check. */
  function GetStFast(s: State, i: bv32): Value {
    s.st[StIndex(s, i)]
  }

  // ---------------------------------------------------------------------
  // Stack motion

  /** push(): TOP moves down by one and the new top slot's tag is cleared to
      00; nothing else changes. */
  function Push(s: State): (r: State)
    ensures Top(r) == Top(s) - 1
    ensures SameOutside(r.status, s.status, TopOfStack)
    ensures TagAt(r.tag, Top(r)) == TagValid
    ensures forall q: Slot :: q != Top(r) ==> TagAt(r.tag, q) == TagAt(s.tag, q)
    ensures r.st == s.st && r.control == s.control
  {
    var top := Top(s) - 1;
    s.(status := WithTop(s.status, top), tag := ClearTag(s.tag, top))
  }

  /** pop(): the top slot is tagged empty and zeroed, and TOP moves up by one. */
  function Pop(s: State): (r: State)
    ensures Top(r) == Top(s) + 1
    ensures SameOutside(r.status, s.status, TopOfStack)
    ensures TagAt(r.tag, Top(s)) == TagEmpty
    ensures forall q: Slot :: q != Top(s) ==> TagAt(r.tag, q) == TagAt(s.tag, q)
    ensures r.st[Top(s)] == Zero(false)
    ensures forall q: Slot :: q != Top(s) ==> r.st[q] == s.st[q]
    ensures r.control == s.control
  {
    var top := Top(s);
    State(s.control, WithTop(s.status, top + 1), s.tag | (3 << TagShift(top)), s.st[top := Zero(false)])
  }

  /** The state after n pops, as the comparison handlers' pop loops leave it. */
  function PopN(s: State, n: nat): (r: State)
    ensures SameOutside(r.status, s.status, TopOfStack)
    ensures r.control == s.control
    decreases n
  {
    if n == 0 then s else PopN(Pop(s), n - 1)
  }

  /** The state after n pushes. */
  function PushN(s: State, n: nat): State
    decreases n
  {
    if n == 0 then s else PushN(Push(s), n - 1)
  }

  // ---------------------------------------------------------------------
  // Writes

  /** setSt(i, v): stores v in the slot of ST(i) and sets that slot's tag from
      v's class; the status and every other slot and tag are unchanged. */
  function SetSt(s: State, i: bv32, v: Value): (r: State)
    ensures r.st == s.st[StIndex(s, i) := v]
    ensures TagAt(r.tag, StIndex(s, i)) == Classify(v)
    ensures forall q: Slot :: q != StIndex(s, i) ==> TagAt(r.tag, q) == TagAt(s.tag, q)
    ensures r.status == s.status && r.control == s.control
  {
    var p := StIndex(s, i);
    s.(st := s.st[p := v], tag := WithTag(s.tag, p, Classify(v)))
  }

  /** setStFast(i, v): stores v and tags the slot valid (00) whatever v is. */
  function SetStFast(s: State, i: bv32, v: Value): (r: State)
    ensures r.st == s.st[StIndex(s, i) := v]
    ensures TagAt(r.tag, StIndex(s, i)) == TagValid
    ensures forall q: Slot :: q != StIndex(s, i) ==> TagAt(r.tag, q) == TagAt(s.tag, q)
    ensures r.status == s.status && r.control == s.control
  {
    var p := StIndex(s, i);
    s.(st := s.st[p := v], tag := ClearTag(s.tag, p))
  }

  /** The handlers' `statusWord &= ~clear; statusWord |= codes`: `t` with
      the bits of `clear` cleared and `codes` set; nothing else changes. */
  function Recode(t: State, clear: bv16, codes: bv16): (r: State)
    requires codes & !clear == 0
    ensures r == t.(status := r.status)
    ensures SameOutside(r.status, t.status, clear)
    ensures r.status & clear == codes
  {
    ClearThenSet(t.status, clear, codes);
    t.(status := (t.status & !clear) | codes)
  }

  /** Clearing C1 through Recode is `statusWord &= ~C1`. */
  lemma RecodeClears(s: State, t: State)
    requires t == Recode(s, C1, 0)
    ensures t.status == s.status & !C1
  {
    OnlyC1Cleared(t.status, s.status);
  }

  lemma OnlyC1Cleared(a: bv16, b: bv16)
    requires SameOutside(a, b, C1) && a & C1 == 0
    ensures a == b & !C1
  {
  }

  /** swap_registers(a, b): exchanges the values and the tags of the slots of
      ST(a) and ST(b); the other six slots and the words are untouched. */
  function SwapRegisters(s: State, a: bv32, b: bv32): (r: State)
    ensures r.st[StIndex(s, a)] == s.st[StIndex(s, b)]
    ensures r.st[StIndex(s, b)] == s.st[StIndex(s, a)]
    ensures TagAt(r.tag, StIndex(s, a)) == TagAt(s.tag, StIndex(s, b))
    ensures TagAt(r.tag, StIndex(s, b)) == TagAt(s.tag, StIndex(s, a))
    ensures forall q: Slot :: q != StIndex(s, a) && q != StIndex(s, b) ==>
      r.st[q] == s.st[q] && TagAt(r.tag, q) == TagAt(s.tag, q)
    ensures r.status == s.status && r.control == s.control
  {
    var p1 := StIndex(s, a);
    var p2 := StIndex(s, b);
    s.(st := s.st[p1 := s.st[p2]][p2 := s.st[p1]], tag := SwapTags(s.tag, p1, p2))
  }

  /** The tag-word half of swap_registers: read both fields, clear both, then
      write each into the other's place. */
  function SwapTags(tag: bv16, p1: Slot, p2: Slot): (r: bv16)
    ensures TagAt(r, p1) == TagAt(tag, p2)
    ensures TagAt(r, p2) == TagAt(tag, p1)
    ensures forall q: Slot :: q != p1 && q != p2 ==> TagAt(r, q) == TagAt(tag, q)
  {
    SwapFieldFirst(tag, p1, p2);
    SwapFieldSecond(tag, p1, p2);
    forall q: Slot | q != p1 && q != p2
      ensures Field(SwapTagBits(tag, p1, p2), q) == Field(tag, q)
    {
      SwapFieldOther(tag, p1, p2, q);
    }
    SwapTagBits(tag, p1, p2)
  }

  function SwapTagBits(tag: bv16, p1: Slot, p2: Slot): bv16 {
    var t1 := Field(tag, p1);
    var t2 := Field(tag, p2);
    var cleared := tag & !((3 << TagShift(p1)) | (3 << TagShift(p2)));
    cleared | (t2 << TagShift(p1)) | (t1 << TagShift(p2))
  }

  lemma SwapFieldFirst(tag: bv16, p1: Slot, p2: Slot)
    ensures Field(SwapTagBits(tag, p1, p2), p1) == Field(tag, p2)
  {
  }

  lemma SwapFieldSecond(tag: bv16, p1: Slot, p2: Slot)
    ensures Field(SwapTagBits(tag, p1, p2), p2) == Field(tag, p1)
  {
  }

  lemma SwapFieldOther(tag: bv16, p1: Slot, p2: Slot, q: Slot)
    requires q != p1 && q != p2
    ensures Field(SwapTagBits(tag, p1, p2), q) == Field(tag, q)
  {
  }

  // ---------------------------------------------------------------------
  // Properties of the stack primitives

  /** Writing back the TOP field a status word already holds changes nothing. */
  lemma WithOwnTop(s: State)
    ensures WithTop(s.status, Top(s)) == s.status
  {
  }

  /** A push followed by a pop restores the status word (TOP included) and
      every tag and slot except the one pushed into, which is left empty and
      zeroed. */
  lemma PushThenPop(s: State)
    ensures Pop(Push(s)).status == s.status
    ensures TagAt(Pop(Push(s)).tag, Top(s) - 1) == TagEmpty
    ensures forall q: Slot :: q != Top(s) - 1 ==> TagAt(Pop(Push(s)).tag, q) == TagAt(s.tag, q)
    ensures Pop(Push(s)).st == s.st[Top(s) - 1 := Zero(false)]
  {
    PushThenPopStatus(s);
    PushThenPopTags(s);
  }

  lemma PushThenPopStatus(s: State)
    ensures Pop(Push(s)).status == s.status
  {
    var t := Top(s) - 1;
    assert Pop(Push(s)).status == WithTop(WithTop(s.status, t), t + 1);
    WithOwnTop(s);
  }

  lemma PushThenPopTags(s: State)
    ensures TagAt(Pop(Push(s)).tag, Top(s) - 1) == TagEmpty
    ensures forall q: Slot :: q != Top(s) - 1 ==> TagAt(Pop(Push(s)).tag, q) == TagAt(s.tag, q)
  {
  }

  /** TOP after n pushes has moved down by n, modulo eight. */
  lemma {:induction false} PushNTop(s: State, n: nat)
    ensures Top(PushN(s, n)) == Top(s) - (n % 8) as bv3
    decreases n
  {
    if n > 0 {
      PushNTop(Push(s), n - 1);
      assert Top(Push(s)) == Top(s) - 1;
      BvStep(Top(s), n);
    }
  }

  lemma BvStep(t: Slot, n: nat)
    requires n > 0
    ensures t - 1 - ((n - 1) % 8) as bv3 == t - (n % 8) as bv3
  {
    var k := (n - 1) % 8;
    assert n % 8 == if k == 7 then 0 else k + 1;
  }

  /** TOP after n pops has moved up by n, modulo eight. */
  lemma {:induction false} PopNTop(s: State, n: nat)
    ensures Top(PopN(s, n)) == Top(s) + (n % 8) as bv3
    decreases n
  {
    if n > 0 {
      var p := Pop(s);
      PopNTop(p, n - 1);
      StepUp(Top(s), Top(p), Top(PopN(p, n - 1)), n);
    }
  }

  lemma StepUp(a: Slot, b: Slot, c: Slot, n: nat)
    requires n > 0 && b == a + 1 && c == b + ((n - 1) % 8) as bv3
    ensures c == a + (n % 8) as bv3
  {
    var k := (n - 1) % 8;
    assert n % 8 == if k == 7 then 0 else k + 1;
  }

  /** What getSt reads depends on the slots, the tags and TOP only: flags
      raised by an earlier read do not change a later one. */
  lemma ReadIgnoresFlags(s: State, t: State, i: bv32, mask: bv16)
    requires t == s.(status := t.status) && SameOutside(t.status, s.status, mask) && mask & TopOfStack == 0
    ensures GetSt(t, i).value == GetSt(s, i).value
    ensures GetStTag(t, i) == GetStTag(s, i)
    ensures GetStFast(t, i) == GetStFast(s, i)
  {
    SameTop(t, s, mask);
  }

  /** getSt changes at most the stack-underflow bits of the status word. */
  lemma ReadFrame(s: State, i: bv32)
    ensures GetSt(s, i).state == s.(status := GetSt(s, i).state.status)
    ensures SameOutside(GetSt(s, i).state.status, s.status, StackUnderflow)
  {
  }

  /** Status words that agree outside a mask clear of the TOP field have
      the same TOP. */
  lemma SameTop(a: State, b: State, mask: bv16)
    requires SameOutside(a.status, b.status, mask) && mask & TopOfStack == 0
    ensures Top(a) == Top(b)
  {
  }

  /** Eight pushes bring TOP back to where it was: the register stack is a ring. */
  lemma EightPushesRestoreTop(s: State)
    ensures Top(PushN(s, 8)) == Top(s)
  {
    PushNTop(s, 8);
  }

  /** ST(i) of a state is ST(i + 1) after a push: the slot index shifts. */
  lemma PushShiftsIndex(s: State, i: bv32)
    ensures StIndex(Push(s), i + 1) == StIndex(s, i)
    ensures GetStFast(Push(s), i + 1) == GetStFast(s, i)
    ensures i & 7 != 7 ==> GetStTag(Push(s), i + 1) == GetStTag(s, i)
  {
    StIndexLowBits(s, i);
    StIndexLowBits(Push(s), i + 1);
    LowBitsOfSuccessor(i);
  }

  /** ST(i + 1) of a state is ST(i) after a pop, for every i that does not
      wrap onto the slot the pop emptied. */
  lemma PopShiftsIndex(s: State, i: bv32)
    ensures StIndex(Pop(s), i) == StIndex(s, i + 1)
    ensures i & 7 != 7 ==> GetStFast(Pop(s), i) == GetStFast(s, i + 1)
    ensures i & 7 != 7 ==> GetStTag(Pop(s), i) == GetStTag(s, i + 1)
  {
    StIndexLowBits(Pop(s), i);
    StIndexLowBits(s, i + 1);
    LowBitsOfSuccessor(i);
  }

  lemma StIndexLowBits(s: State, i: bv32)
    ensures StIndex(s, i) == (i & 7) as bv3 + Top(s)
  {
  }

  lemma LowBitsOfSuccessor(i: bv32)
    ensures ((i + 1) & 7) as bv3 == (i & 7) as bv3 + 1
  {
  }

  /** Swapping twice gives back the original state. */
  lemma SwapTwice(s: State, a: bv32, b: bv32)
    ensures SwapRegisters(SwapRegisters(s, a, b), a, b) == s
  {
    var m := SwapRegisters(s, a, b);
    SameTopSameIndices(s, m, a, b);
    SwapTagBitsTwice(s.tag, StIndex(s, a), StIndex(s, b));
    SwapSlotsTwice(s.st, StIndex(s, a), StIndex(s, b));
  }

  lemma SameTopSameIndices(s: State, m: State, a: bv32, b: bv32)
    requires m.status == s.status
    ensures StIndex(m, a) == StIndex(s, a) && StIndex(m, b) == StIndex(s, b)
  {
  }

  lemma SwapSlotsTwice(st: Registers, p1: Slot, p2: Slot)
    ensures var m := st[p1 := st[p2]][p2 := st[p1]]; m[p1 := m[p2]][p2 := m[p1]] == st
  {
  }

  lemma SwapTagBitsTwice(tag: bv16, p1: Slot, p2: Slot)
    ensures SwapTagBits(SwapTagBits(tag, p1, p2), p1, p2) == tag
  {
    var m := SwapTagBits(tag, p1, p2);
    var r := SwapTagBits(m, p1, p2);
    SwapFieldFirst(tag, p1, p2);
    SwapFieldSecond(tag, p1, p2);
    SwapFieldFirst(m, p1, p2);
    SwapFieldSecond(m, p1, p2);
    forall q: Slot
      ensures Field(r, q) == Field(tag, q)
    {
      if q != p1 && q != p2 {
        SwapFieldOther(tag, p1, p2, q);
        SwapFieldOther(m, p1, p2, q);
      }
    }
    FieldsDetermineTag(r, tag);
  }

  /** A tag word is determined by its eight fields. */
  lemma FieldsDetermineTag(a: bv16, b: bv16)
    requires forall q: Slot :: Field(a, q) == Field(b, q)
    ensures a == b
  {
    assert Field(a, 0) == Field(b, 0) && Field(a, 1) == Field(b, 1);
    assert Field(a, 2) == Field(b, 2) && Field(a, 3) == Field(b, 3);
    assert Field(a, 4) == Field(b, 4) && Field(a, 5) == Field(b, 5);
    assert Field(a, 6) == Field(b, 6) && Field(a, 7) == Field(b, 7);
  }

  /** What setSt stores reads back through getSt, with no flag raised. */
  lemma SetStReadsBack(s: State, i: bv32, v: Value)
    ensures GetSt(SetSt(s, i, v), i) == Read(v, SetSt(s, i, v))
    ensures GetStFast(SetStFast(s, i, v), i) == v
    ensures GetSt(SetStFast(s, i, v), i) == Read(v, SetStFast(s, i, v))
  {
  }

  // ---------------------------------------------------------------------
  // Two-operand reads

  /** The two operands of a two-register handler as getSt reads them, and
      the state the reads leave. */
  datatype Operands = Operands(st0: Value, sti: Value, state: State)

  /** getSt(0), then getSt(i) on the state the first read leaves. */
  function ReadBoth(s: State, i: bv32): (o: Operands)
    ensures o.st0 == GetSt(s, 0).value && o.sti == GetSt(s, i).value
    ensures o.state == s.(status := o.state.status)
    ensures SameOutside(o.state.status, s.status, StackUnderflow)
  {
    var a := GetSt(s, 0);
    var b := GetSt(a.state, i);
    ReadFrame(s, 0);
    ReadFrame(a.state, i);
    ReadIgnoresFlags(s, a.state, i, StackUnderflow);
    SameOutsideChain(b.state.status, a.state.status, s.status, StackUnderflow, StackUnderflow);
    Operands(a.value, b.value, b.state)
  }

  /** Two reads set the stack-underflow bits exactly when one of the slots
      is empty or the bits were set already, and change nothing when both
      slots are in use. */
  lemma ReadBothFlagsEmpty(s: State, i: bv32)
    ensures Has(ReadBoth(s, i).state.status, StackUnderflow) <==>
      GetStTag(s, 0) == TagEmpty || GetStTag(s, i) == TagEmpty || Has(s.status, StackUnderflow)
    ensures GetStTag(s, 0) != TagEmpty && GetStTag(s, i) != TagEmpty ==> ReadBoth(s, i).state == s
  {
    var a := GetSt(s, 0);
    ReadIgnoresFlags(s, a.state, i, StackUnderflow);
  }

  /** Clear the bits of `mask` in the status word, then read both operands:
      the prologue of fxch and fscale (C1) and of fprem (C0-C3). */
  function ClearAndRead(s: State, i: bv32, mask: bv16): (o: Operands)
    requires mask & (TopOfStack | StackUnderflow) == 0
    ensures o.st0 == GetSt(s, 0).value && o.sti == GetSt(s, i).value
    ensures o.state == s.(status := o.state.status) && Top(o.state) == Top(s)
    ensures o.state.status & mask == 0
    ensures SameOutside(o.state.status, s.status, StackUnderflow | mask)
    ensures Has(o.state.status, StackUnderflow) <==>
      GetStTag(s, 0) == TagEmpty || GetStTag(s, i) == TagEmpty || Has(s.status, StackUnderflow)
    ensures GetStTag(s, 0) != TagEmpty && GetStTag(s, i) != TagEmpty ==> o.state == Recode(s, mask, 0)
  {
    var t := Recode(s, mask, 0);
    ClearedReads(s, t, i, mask);
    ReadBoth(t, i)
  }

  lemma ClearedReads(s: State, t: State, i: bv32, mask: bv16)
    requires mask & (TopOfStack | StackUnderflow) == 0 && t == Recode(s, mask, 0)
    ensures ReadBoth(t, i).st0 == GetSt(s, 0).value && ReadBoth(t, i).sti == GetSt(s, i).value
    ensures Top(ReadBoth(t, i).state) == Top(s)
    ensures ReadBoth(t, i).state.status & mask == 0
    ensures SameOutside(ReadBoth(t, i).state.status, s.status, StackUnderflow | mask)
    ensures Has(ReadBoth(t, i).state.status, StackUnderflow) <==>
      GetStTag(s, 0) == TagEmpty || GetStTag(s, i) == TagEmpty || Has(s.status, StackUnderflow)
    ensures GetStTag(s, 0) != TagEmpty && GetStTag(s, i) != TagEmpty ==> ReadBoth(t, i).state == t
  {
    ReadIgnoresFlags(s, t, 0, mask);
    ReadIgnoresFlags(s, t, i, mask);
    ReadBothFlagsEmpty(t, i);
    ClearedStatus(s, t, ReadBoth(t, i).state, mask);
  }

  lemma ClearedStatus(s: State, t: State, u: State, mask: bv16)
    requires mask & (TopOfStack | StackUnderflow) == 0 && t == Recode(s, mask, 0)
    requires SameOutside(u.status, t.status, StackUnderflow)
    ensures Top(u) == Top(s) && u.status & mask == 0
    ensures SameOutside(u.status, s.status, StackUnderflow | mask)
    ensures Has(t.status, StackUnderflow) <==> Has(s.status, StackUnderflow)
  {
    SameOutsideChain(u.status, t.status, s.status, StackUnderflow, mask);
    SameTop(u, s, StackUnderflow | mask);
    ClearedStaysClear(s.status, t.status, u.status, mask);
  }

  /** Clearing a mask clear of 0x41 keeps the 0x41 bits, and raising them
      afterwards leaves the mask clear. */
  lemma ClearedStaysClear(s: bv16, t: bv16, u: bv16, mask: bv16)
    requires mask & StackUnderflow == 0
    requires SameOutside(t, s, mask) && t & mask == 0 && SameOutside(u, t, StackUnderflow)
    ensures u & mask == 0
    ensures Has(t, StackUnderflow) <==> Has(s, StackUnderflow)
  {
  }
}
