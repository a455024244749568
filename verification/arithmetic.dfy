/** The arithmetic handlers of rosettaRuntime/X87.cpp: fadd, fsub, fsubr,
    fmul, fdiv and fdivr on two stack registers (the `_ST` forms), on a
    32- or 64-bit memory operand (the `_f32` and `_f64` forms), and fiadd,
    fisub, fisubr, fimul, fidiv and fidivr on a 32-bit integer. The IEEE
    operation itself is the host's and arrives as a parameter; what is
    modelled is which register is read, which is written, how its tag is
    set and when the stack pops. */
module Arithmetic {
  import opened Words
  import opened Values
  import opened X87State

  /** One of the host's binary64 operations (+, -, * or /). */
  type Binary = (Value, Value) -> Value

  /** `a op b`, or `b op a` for the reversed (`r`) handlers. */
  function Apply(op: Binary, a: Value, b: Value, reversed: bool): (v: Value)
    ensures !reversed ==> v == op(a, b)
    ensures reversed ==> v == op(b, a)
  {
    if reversed then op(b, a) else op(a, b)
  }

  /** The operation with its operands exchanged. */
  function Flip(op: Binary): (f: Binary)
    ensures forall a: Value, b: Value :: f(a, b) == op(b, a)
  {
    (a: Value, b: Value) => op(b, a)
  }

  // ---------------------------------------------------------------------
  // Register forms

  /** x87_fadd_ST and its siblings: clear C1, read ST(i1) and ST(i2) with
      getStFast, store the result in ST(i1) with setStFast (tag 00 whatever
      the result), then pop when asked. */
  function ArithSt(s: State, i1: bv32, i2: bv32, op: Binary, reversed: bool, pop: bool): (r: State)
    ensures !pop ==> GetStFast(r, i1) == Apply(op, GetStFast(s, i1), GetStFast(s, i2), reversed)
    ensures !pop ==> GetStTag(r, i1) == TagValid
    ensures !pop ==> forall q: Slot :: q != StIndex(s, i1) ==> r.st[q] == s.st[q] && TagAt(r.tag, q) == TagAt(s.tag, q)
    ensures Top(r) == if pop then Top(s) + 1 else Top(s)
    ensures !Has(r.status, C1)
    ensures r.control == s.control
    ensures !pop ==> r.status == s.status & !C1
    ensures SameOutside(r.status, s.status, C1 | TopOfStack)
    ensures pop ==> r == Pop(ArithSt(s, i1, i2, op, reversed, false))
  {
    var u := Written(s, i1, i2, op, reversed);
    if pop then PoppedWrite(s, u, StIndex(s, i1), Apply(op, GetStFast(s, i1), GetStFast(s, i2), reversed)); Pop(u) else u
  }

  /** The popping register forms: the result stays in the slot of ST(i1)
      unless that slot was the top, which the pop empties and zeroes; every
      other slot keeps its value and tag. */
  lemma PopFrame(s: State, i1: bv32, i2: bv32, op: Binary, reversed: bool)
    ensures var r := ArithSt(s, i1, i2, op, reversed, true);
      StIndex(s, i1) != Top(s) ==>
        r.st[StIndex(s, i1)] == Apply(op, GetStFast(s, i1), GetStFast(s, i2), reversed) && TagAt(r.tag, StIndex(s, i1)) == TagValid
    ensures var r := ArithSt(s, i1, i2, op, reversed, true);
      r.st[Top(s)] == Zero(false) && TagAt(r.tag, Top(s)) == TagEmpty
    ensures var r := ArithSt(s, i1, i2, op, reversed, true);
      forall q: Slot :: q != StIndex(s, i1) && q != Top(s) ==> r.st[q] == s.st[q] && TagAt(r.tag, q) == TagAt(s.tag, q)
  {
    var u := Written(s, i1, i2, op, reversed);
    PoppedWrite(s, u, StIndex(s, i1), Apply(op, GetStFast(s, i1), GetStFast(s, i2), reversed));
    assert ArithSt(s, i1, i2, op, reversed, true) == Pop(u);
  }

  /** The register form up to the pop: C1 cleared and the result stored in
      ST(i1) by setStFast. */
  function Written(s: State, i1: bv32, i2: bv32, op: Binary, reversed: bool): (u: State)
    ensures u.st[StIndex(s, i1)] == Apply(op, GetStFast(s, i1), GetStFast(s, i2), reversed)
    ensures TagAt(u.tag, StIndex(s, i1)) == TagValid
    ensures GetStFast(u, i1) == Apply(op, GetStFast(s, i1), GetStFast(s, i2), reversed) && GetStTag(u, i1) == TagValid
    ensures forall q: Slot :: q != StIndex(s, i1) ==> u.st[q] == s.st[q] && TagAt(u.tag, q) == TagAt(s.tag, q)
    ensures Top(u) == Top(s) && u.control == s.control
    ensures u.status == s.status & !C1 && !Has(u.status, C1) && SameOutside(u.status, s.status, C1 | TopOfStack)
  {
    var t := Recode(s, C1, 0);
    ReadsAgree(s, t, i1, i2, op, reversed);
    var u := SetStFast(t, i1, Apply(op, GetStFast(t, i1), GetStFast(t, i2), reversed));
    SlotFacts(s, t, u, i1, Apply(op, GetStFast(s, i1), GetStFast(s, i2), reversed));
    StatusFacts(u.status, t.status, s.status);
    u
  }

  /** Clearing C1 changes neither TOP nor a register, so the reads agree. */
  lemma ReadsAgree(s: State, t: State, i1: bv32, i2: bv32, op: Binary, reversed: bool)
    requires t == Recode(s, C1, 0)
    ensures Apply(op, GetStFast(t, i1), GetStFast(t, i2), reversed) == Apply(op, GetStFast(s, i1), GetStFast(s, i2), reversed)
  {
    SameTop(t, s, C1);
  }

  lemma SlotFacts(s: State, t: State, u: State, i: bv32, v: Value)
    requires t == Recode(s, C1, 0) && u == SetStFast(t, i, v)
    ensures u.st[StIndex(s, i)] == v && TagAt(u.tag, StIndex(s, i)) == TagValid
    ensures GetStFast(u, i) == v && GetStTag(u, i) == TagValid
    ensures forall q: Slot :: q != StIndex(s, i) ==> u.st[q] == s.st[q] && TagAt(u.tag, q) == TagAt(s.tag, q)
    ensures Top(u) == Top(s) && u.control == s.control
  {
    SameTop(t, s, C1);
    assert StIndex(t, i) == StIndex(s, i);
    WrittenSlot(t, u, i, v);
  }

  /** `statusWord &= ~C1`, read off Recode's contract. */
  lemma StatusFacts(u: bv16, t: bv16, s: bv16)
    requires u == t && SameOutside(t, s, C1) && t & C1 == 0
    ensures u == s & !C1 && !Has(u, C1) && SameOutside(u, s, C1 | TopOfStack)
  {
  }

  /** The pop after the write empties the old top and moves only TOP. */
  lemma PoppedWrite(s: State, u: State, p: Slot, v: Value)
    requires Top(u) == Top(s) && u.status == s.status & !C1
    requires u.st[p] == v && TagAt(u.tag, p) == TagValid
    requires forall q: Slot :: q != p ==> u.st[q] == s.st[q] && TagAt(u.tag, q) == TagAt(s.tag, q)
    ensures SameOutside(Pop(u).status, s.status, C1 | TopOfStack) && !Has(Pop(u).status, C1)
    ensures Top(Pop(u)) == Top(s) + 1 && Pop(u).control == u.control
    ensures Pop(u).st[Top(s)] == Zero(false) && TagAt(Pop(u).tag, Top(s)) == TagEmpty
    ensures p != Top(s) ==> Pop(u).st[p] == v && TagAt(Pop(u).tag, p) == TagValid
    ensures forall q: Slot :: q != p && q != Top(s) ==> Pop(u).st[q] == s.st[q] && TagAt(Pop(u).tag, q) == TagAt(s.tag, q)
  {
    PoppedStatus(Pop(u).status, u.status, s.status);
  }

  lemma PoppedStatus(r: bv16, u: bv16, s: bv16)
    requires u == s & !C1 && SameOutside(r, u, TopOfStack)
    ensures SameOutside(r, s, C1 | TopOfStack) && !Has(r, C1)
  {
  }

  lemma WrittenSlot(t: State, u: State, i: bv32, v: Value)
    requires u == SetStFast(t, i, v) && Top(u) == Top(t)
    ensures GetStFast(u, i) == v && GetStTag(u, i) == TagValid
  {
    assert StIndex(u, i) == StIndex(t, i);
  }

  /** A reversed handler is the plain one on the exchanged operation:
      fsubr computes what fsub would with `-` flipped. */
  lemma ReversedIsFlipped(s: State, i1: bv32, i2: bv32, op: Binary, pop: bool)
    ensures ArithSt(s, i1, i2, op, true, pop) == ArithSt(s, i1, i2, Flip(op), false, pop)
  {
    var t := Recode(s, C1, 0);
    assert Apply(op, GetStFast(t, i1), GetStFast(t, i2), true) == Apply(Flip(op), GetStFast(t, i1), GetStFast(t, i2), false);
  }

  /** The popping form on ST(1) and ST(0) (faddp and friends): the result
      lands in the new ST(0), tagged valid, and the old top is empty. */
  lemma PopLandsOnTop(s: State, op: Binary, reversed: bool)
    ensures GetStFast(ArithSt(s, 1, 0, op, reversed, true), 0) == Apply(op, GetStFast(s, 1), GetStFast(s, 0), reversed)
    ensures GetStTag(ArithSt(s, 1, 0, op, reversed, true), 0) == TagValid
    ensures TagAt(ArithSt(s, 1, 0, op, reversed, true).tag, Top(s)) == TagEmpty
  {
    var t := Recode(s, C1, 0);
    SameTop(t, s, C1);
    var v := Apply(op, GetStFast(t, 1), GetStFast(t, 0), reversed);
    var u := SetStFast(t, 1, v);
    PopOverWrite(t, u, v);
  }

  lemma PopOverWrite(t: State, u: State, v: Value)
    requires u == SetStFast(t, 1, v)
    ensures GetStFast(Pop(u), 0) == v && GetStTag(Pop(u), 0) == TagValid
    ensures TagAt(Pop(u).tag, Top(t)) == TagEmpty
  {
    assert StIndex(t, 1) == Top(t) + 1;
    assert StIndex(Pop(u), 0) == Top(t) + 1;
  }

  // ---------------------------------------------------------------------
  // Memory forms

  /** x87_fadd_f64 and its siblings: clear C1, read ST(0) with getStFast,
      store `st0 op x` (or `x op st0`) with setStFast. */
  function ArithMem(s: State, x: Value, op: Binary, reversed: bool): (r: State)
    ensures GetStFast(r, 0) == Apply(op, GetStFast(s, 0), x, reversed)
    ensures GetStTag(r, 0) == TagValid
    ensures forall q: Slot :: q != Top(s) ==> r.st[q] == s.st[q] && TagAt(r.tag, q) == TagAt(s.tag, q)
    ensures Top(r) == Top(s)
    ensures !Has(r.status, C1)
    ensures r.status == s.status & !C1 && r.control == s.control
  {
    var t := Recode(s, C1, 0);
    SameTop(t, s, C1);
    RecodeClears(s, t);
    SetStFast(t, 0, Apply(op, GetStFast(t, 0), x, reversed))
  }

  /** The memory form is the register form against a register that holds
      the operand. */
  lemma MemoryIsRegisterForm(s: State, x: Value, i: bv32, op: Binary, reversed: bool)
    requires GetStFast(s, i) == x
    ensures ArithMem(s, x, op, reversed) == ArithSt(s, 0, i, op, reversed, false)
  {
    var t := Recode(s, C1, 0);
    SameTop(t, s, C1);
  }

  /** The `_f32` forms: the float operand widens exactly to double. */
  function ArithF32(s: State, bits: bv32, op: Binary, reversed: bool): (r: State)
    ensures GetStFast(r, 0) == Apply(op, GetStFast(s, 0), SingleValue(bits), reversed)
    ensures GetStTag(r, 0) == TagValid && Top(r) == Top(s)
    ensures forall q: Slot :: q != Top(s) ==> r.st[q] == s.st[q] && TagAt(r.tag, q) == TagAt(s.tag, q)
    ensures !Has(r.status, C1)
    ensures r.status == s.status & !C1 && r.control == s.control
  {
    ArithMem(s, SingleValue(bits), op, reversed)
  }

  /** The `_f64` forms: the operand's bits are a double. */
  function ArithF64(s: State, bits: bv64, op: Binary, reversed: bool): (r: State)
    ensures GetStFast(r, 0) == Apply(op, GetStFast(s, 0), DoubleValue(bits), reversed)
    ensures GetStTag(r, 0) == TagValid && Top(r) == Top(s)
    ensures forall q: Slot :: q != Top(s) ==> r.st[q] == s.st[q] && TagAt(r.tag, q) == TagAt(s.tag, q)
    ensures !Has(r.status, C1)
    ensures r.status == s.status & !C1 && r.control == s.control
  {
    ArithMem(s, DoubleValue(bits), op, reversed)
  }

  // ---------------------------------------------------------------------
  // Integer forms

  /** x87_fiadd and its siblings: clear C1, read ST(0) with getSt (an empty
      ST(0) reads as a quiet NaN and raises 0x41), combine it with the
      integer converted to double (exact for 32 bits), and store with setSt,
      which tags the slot from the result's class. */
  function ArithInt(s: State, n: Int32, op: Binary, reversed: bool): (r: State)
    ensures GetStFast(r, 0) == Apply(op, GetSt(s, 0).value, IntToValue(n), reversed)
    ensures GetStTag(r, 0) == Classify(GetStFast(r, 0))
    ensures forall q: Slot :: q != Top(s) ==> r.st[q] == s.st[q] && TagAt(r.tag, q) == TagAt(s.tag, q)
    ensures Top(r) == Top(s)
    ensures !Has(r.status, C1)
    ensures Has(r.status, StackUnderflow) <==> GetStTag(s, 0) == TagEmpty || Has(s.status, StackUnderflow)
    ensures SameOutside(r.status, s.status, C1 | StackUnderflow) && r.control == s.control
  {
    var t := Recode(s, C1, 0);
    var a := GetSt(t, 0);
    IntFacts(s, t, a);
    SetSt(a.state, 0, Apply(op, a.value, IntToValue(n), reversed))
  }

  lemma IntFacts(s: State, t: State, a: Read)
    requires t == Recode(s, C1, 0) && a == GetSt(t, 0)
    ensures a.value == GetSt(s, 0).value && GetStTag(t, 0) == GetStTag(s, 0)
    ensures Top(a.state) == Top(s) && a.state.st == s.st && a.state.tag == s.tag
    ensures !Has(a.state.status, C1)
    ensures Has(a.state.status, StackUnderflow) <==> GetStTag(s, 0) == TagEmpty || Has(s.status, StackUnderflow)
    ensures SameOutside(a.state.status, s.status, C1 | StackUnderflow) && a.state.control == s.control
  {
    ReadIgnoresFlags(s, t, 0, C1);
    ReadFrame(t, 0);
    SameOutsideChain(a.state.status, t.status, s.status, StackUnderflow, C1);
    SameTop(a.state, s, StackUnderflow | C1);
  }

  /** On a non-empty ST(0) whose result is an ordinary normal number, the
      integer form is the memory form with the converted integer: getSt and
      getStFast read alike, and setSt's tag is setStFast's. */
  lemma IntegerIsMemoryForm(s: State, n: Int32, op: Binary, reversed: bool)
    requires GetStTag(s, 0) != TagEmpty
    requires Apply(op, GetStFast(s, 0), IntToValue(n), reversed).Normal?
    ensures ArithInt(s, n, op, reversed) == ArithMem(s, IntToValue(n), op, reversed)
  {
    var t := Recode(s, C1, 0);
    SameTop(t, s, C1);
    ValidTagIsCleared(t.tag, Top(s));
  }

  lemma ValidTagIsCleared(tag: bv16, p: Slot)
    ensures WithTag(tag, p, TagValid) == ClearTag(tag, p)
  {
    assert TagCode(TagValid) == 0;
    assert (0 as bv16) << TagShift(p) == 0;
  }
}
