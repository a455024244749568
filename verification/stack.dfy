/** The handlers of rosettaRuntime/X87.cpp that only move things around the
    register stack: fincstp and fdecstp rotate TOP, fxch exchanges ST(0)
    with ST(i), fcmov copies ST(i) into ST(0) under a condition, and
    x87_init / x87_set_init_state reset the whole state. */
module StackControl {
  import opened Words
  import opened Values
  import opened X87State

  // ---------------------------------------------------------------------
  // fincstp and fdecstp

  /** x87_fincstp: clear C1 and add one to TOP, modulo eight. No tag and no
      slot changes, so the register that was ST(1) becomes ST(0). */
  function Fincstp(s: State): (r: State)
    ensures Top(r) == Top(s) + 1
    ensures r.st == s.st && r.tag == s.tag && r.control == s.control
    ensures !Has(r.status, C1)
    ensures SameOutside(r.status, s.status, C1 | TopOfStack)
  {
    var t := Recode(s, C1, 0);
    SameTop(t, s, C1);
    Rotated(s, t, Top(s) + 1)
  }

  /** x87_fdecstp: clear C1 and subtract one from TOP, modulo eight. */
  function Fdecstp(s: State): (r: State)
    ensures Top(r) == Top(s) - 1
    ensures r.st == s.st && r.tag == s.tag && r.control == s.control
    ensures !Has(r.status, C1)
    ensures SameOutside(r.status, s.status, C1 | TopOfStack)
  {
    var t := Recode(s, C1, 0);
    SameTop(t, s, C1);
    Rotated(s, t, Top(s) - 1)
  }

  /** `t`, the C1-cleared `s`, with TOP replaced. */
  function Rotated(s: State, t: State, top: Slot): (r: State)
    requires t == Recode(s, C1, 0)
    ensures Top(r) == top
    ensures r.st == s.st && r.tag == s.tag && r.control == s.control
    ensures !Has(r.status, C1)
    ensures SameOutside(r.status, s.status, C1 | TopOfStack)
  {
    SameOutsideChain(WithTop(t.status, top), t.status, s.status, TopOfStack, C1);
    t.(status := WithTop(t.status, top))
  }

  /** fdecstp undoes fincstp, and the other way round: what is left is the
      original state with C1 cleared. */
  lemma IncThenDec(s: State)
    ensures Fdecstp(Fincstp(s)) == s.(status := s.status & !C1)
  {
    var a := Fincstp(s);
    var r := Fdecstp(a);
    SameOutsideChain(r.status, a.status, s.status, C1 | TopOfStack, C1 | TopOfStack);
    Restored(s, r);
  }

  lemma DecThenInc(s: State)
    ensures Fincstp(Fdecstp(s)) == s.(status := s.status & !C1)
  {
    var a := Fdecstp(s);
    var r := Fincstp(a);
    SameOutsideChain(r.status, a.status, s.status, C1 | TopOfStack, C1 | TopOfStack);
    Restored(s, r);
  }

  /** A state that differs from `s` at most in C1 and TOP, has C1 clear and
      has TOP back where it was is `s` with C1 cleared. */
  lemma Restored(s: State, r: State)
    requires r.st == s.st && r.tag == s.tag && r.control == s.control
    requires SameOutside(r.status, s.status, C1 | TopOfStack) && !Has(r.status, C1) && Top(r) == Top(s)
    ensures r == s.(status := s.status & !C1)
  {
    SameTopField(r, s);
    StatusRestored(s, r);
  }

  lemma SameTopField(r: State, s: State)
    requires Top(r) == Top(s)
    ensures r.status & TopOfStack == s.status & TopOfStack
  {
  }

  lemma StatusRestored(s: State, r: State)
    requires SameOutside(r.status, s.status, C1 | TopOfStack) && !Has(r.status, C1)
    requires r.status & TopOfStack == s.status & TopOfStack
    ensures r.status == s.status & !C1
  {
  }

  /** After fincstp, ST(i) is what ST(i + 1) was. */
  lemma FincstpShiftsIndex(s: State, i: bv32)
    ensures GetStFast(Fincstp(s), i) == GetStFast(s, i + 1)
    ensures GetStTag(Fincstp(s), i) == GetStTag(s, i + 1)
  {
    var r := Fincstp(s);
    StIndexLowBits(r, i);
    StIndexLowBits(s, i + 1);
    LowBitsOfSuccessor(i);
  }

  // ---------------------------------------------------------------------
  // fxch

  /** x87_fxch: clear C1, read ST(0) and then ST(i) with getSt (each empty
      one reads as a quiet NaN and raises 0x41), then setSt(0, sti) and
      setSt(i, st0). */
  function Fxch(s: State, i: bv32): (r: State)
    ensures GetStFast(r, i) == GetSt(s, 0).value
    ensures StIndex(s, i) != Top(s) ==> GetStFast(r, 0) == GetSt(s, i).value
    ensures Top(r) == Top(s)
    ensures Has(r.status, StackUnderflow) <==>
      GetStTag(s, 0) == TagEmpty || GetStTag(s, i) == TagEmpty || Has(s.status, StackUnderflow)
    ensures SameOutside(r.status, s.status, C1 | StackUnderflow) && !Has(r.status, C1)
  {
    var o := ClearAndRead(s, i, C1);
    var r := Exchange(o.state, i, o.sti, o.st0);
    assert StIndex(o.state, i) == StIndex(s, i);
    r
  }

  /** The rest of what fxch leaves: the two written slots tagged as setSt
      tags their values, every other slot and tag untouched, C1 clear and
      the control word kept. */
  lemma FxchFrame(s: State, i: bv32)
    ensures GetStTag(Fxch(s, i), i) == Classify(GetSt(s, 0).value)
    ensures StIndex(s, i) != Top(s) ==> GetStTag(Fxch(s, i), 0) == Classify(GetSt(s, i).value)
    ensures forall q: Slot :: q != Top(s) && q != StIndex(s, i) ==>
      Fxch(s, i).st[q] == s.st[q] && TagAt(Fxch(s, i).tag, q) == TagAt(s.tag, q)
    ensures !Has(Fxch(s, i).status, C1) && Fxch(s, i).control == s.control
    ensures SameOutside(Fxch(s, i).status, s.status, C1 | StackUnderflow)
  {
    var o := ClearAndRead(s, i, C1);
    assert StIndex(o.state, i) == StIndex(s, i);
  }

  /** The second half: setSt(0, sti), then setSt(i, st0); the second write
      wins where both land on one slot. */
  function Exchange(m: State, i: bv32, vi: Value, v0: Value): (r: State)
    ensures r.st == m.st[Top(m) := vi][StIndex(m, i) := v0]
    ensures GetStFast(r, i) == v0 && GetStTag(r, i) == Classify(v0)
    ensures StIndex(m, i) != Top(m) ==> GetStFast(r, 0) == vi && GetStTag(r, 0) == Classify(vi)
    ensures forall q: Slot :: q != Top(m) && q != StIndex(m, i) ==> r.st[q] == m.st[q] && TagAt(r.tag, q) == TagAt(m.tag, q)
    ensures r.status == m.status && r.control == m.control
  {
    var u := SetSt(m, 0, vi);
    ExchangeWrites(m, u, SetSt(u, i, v0), i, vi, v0);
    SetSt(u, i, v0)
  }

  /** The two setSt calls: the second wins where both land on one slot. */
  lemma ExchangeWrites(m: State, u: State, r: State, i: bv32, vi: Value, v0: Value)
    requires u == SetSt(m, 0, vi) && r == SetSt(u, i, v0)
    ensures GetStFast(r, i) == v0 && GetStTag(r, i) == Classify(v0)
    ensures StIndex(m, i) != Top(m) ==> GetStFast(r, 0) == vi && GetStTag(r, 0) == Classify(vi)
    ensures forall q: Slot :: q != Top(m) && q != StIndex(m, i) ==> r.st[q] == m.st[q] && TagAt(r.tag, q) == TagAt(m.tag, q)
    ensures r.status == m.status && r.control == m.control
    ensures r.st == m.st[Top(m) := vi][StIndex(m, i) := v0]
  {
    FirstWrite(m, u, vi);
    SecondWrite(u, r, i, v0);
    if StIndex(m, i) != Top(m) {
      assert r.st[Top(m)] == u.st[Top(m)];
      assert TagAt(r.tag, Top(m)) == TagAt(u.tag, Top(m));
    }
  }

  lemma FirstWrite(m: State, u: State, v: Value)
    requires u == SetSt(m, 0, v)
    ensures Top(u) == Top(m) && u.st == m.st[Top(m) := v] && TagAt(u.tag, Top(m)) == Classify(v)
    ensures forall q: Slot :: q != Top(m) ==> u.st[q] == m.st[q] && TagAt(u.tag, q) == TagAt(m.tag, q)
  {
    assert StIndex(m, 0) == Top(m);
  }

  lemma SecondWrite(u: State, r: State, i: bv32, v: Value)
    requires r == SetSt(u, i, v)
    ensures GetStFast(r, i) == v && GetStTag(r, i) == Classify(v) && StIndex(r, i) == StIndex(u, i)
    ensures forall q: Slot :: q != StIndex(u, i) ==> r.st[q] == u.st[q] && TagAt(r.tag, q) == TagAt(u.tag, q)
  {
    assert Top(r) == Top(u);
  }

  /** When both registers are in use and their tags are the ones setSt
      would give their values, fxch is swap_registers with C1 cleared. */
  lemma FxchIsSwap(s: State, i: bv32)
    requires GetStTag(s, 0) == Classify(GetStFast(s, 0))
    requires GetStTag(s, i) == Classify(GetStFast(s, i))
    ensures Fxch(s, i) == SwapRegisters(Recode(s, C1, 0), 0, i)
  {
    var t := Recode(s, C1, 0);
    var o := ClearAndRead(s, i, C1);
    SameTop(t, s, C1);
    assert o.state == t;
    ExchangeIsSwap(t, i);
  }

  /** The two setSt calls on the registers' own values, tagged as setSt
      would tag them, are swap_registers. */
  lemma ExchangeIsSwap(m: State, i: bv32)
    requires TagAt(m.tag, Top(m)) == Classify(m.st[Top(m)])
    requires TagAt(m.tag, StIndex(m, i)) == Classify(m.st[StIndex(m, i)])
    ensures Exchange(m, i, m.st[StIndex(m, i)], m.st[Top(m)]) == SwapRegisters(m, 0, i)
  {
    var p0, pi := Top(m), StIndex(m, i);
    assert StIndex(m, 0) == p0;
    WritesAreSwap(m.tag, p0, pi);
  }

  /** Writing each of two slots' tags over the other's, one after the
      other, is swapping the two fields. */
  lemma WritesAreSwap(tag: bv16, p0: Slot, pi: Slot)
    ensures WithTag(WithTag(tag, p0, TagAt(tag, pi)), pi, TagAt(tag, p0)) == SwapTags(tag, p0, pi)
  {
    var a := WithTag(WithTag(tag, p0, TagAt(tag, pi)), pi, TagAt(tag, p0));
    var b := SwapTags(tag, p0, pi);
    forall q: Slot
      ensures Field(a, q) == Field(b, q)
    {
      WritesAreSwapAt(tag, p0, pi, q);
      SameTagSameField(a, b, q);
    }
    FieldsDetermineTag(a, b);
  }

  lemma WritesAreSwapAt(tag: bv16, p0: Slot, pi: Slot, q: Slot)
    ensures TagAt(WithTag(WithTag(tag, p0, TagAt(tag, pi)), pi, TagAt(tag, p0)), q) == TagAt(SwapTags(tag, p0, pi), q)
  {
    var u := WithTag(tag, p0, TagAt(tag, pi));
    if q == pi {
    } else if q == p0 {
      assert TagAt(u, q) == TagAt(tag, pi);
    } else {
      assert TagAt(u, q) == TagAt(tag, q);
    }
  }

  lemma SameTagSameField(a: bv16, b: bv16, q: Slot)
    requires TagAt(a, q) == TagAt(b, q)
    ensures Field(a, q) == Field(b, q)
  {
    assert TagCode(TagAt(a, q)) == Field(a, q);
    assert TagCode(TagAt(b, q)) == Field(b, q);
  }

  // ---------------------------------------------------------------------
  // fcmov

  /** x87_fcmov: clear C1; if ST(i) is in use, do nothing more when the
      condition is 0 and otherwise copy ST(i) into ST(0) with setSt; if
      ST(i) is empty, raise 0x41 and store +0.0 in ST(0) whatever the
      condition. (The source tests the tag after clearing C1, which does not
      touch the tag word.) */
  function Fcmov(s: State, condition: bv32, i: bv32): (r: State)
    ensures GetStTag(s, i) != TagEmpty && condition == 0 ==>
      r.st == s.st && r.tag == s.tag && SameOutside(r.status, s.status, C1)
    ensures GetStTag(s, i) != TagEmpty && condition != 0 ==>
      GetStFast(r, 0) == GetStFast(s, i) && GetStTag(r, 0) == Classify(GetStFast(s, i)) &&
      SameOutside(r.status, s.status, C1)
    ensures GetStTag(s, i) == TagEmpty ==>
      GetStFast(r, 0) == Zero(false) && GetStTag(r, 0) == TagZero && Has(r.status, StackUnderflow)
    ensures GetStTag(s, i) == TagEmpty ==> r.status == (s.status & !C1) | StackUnderflow
    ensures forall q: Slot :: q != Top(s) ==> r.st[q] == s.st[q] && TagAt(r.tag, q) == TagAt(s.tag, q)
    ensures Top(r) == Top(s) && r.control == s.control
    ensures !Has(r.status, C1)
  {
    if GetStTag(s, i) != TagEmpty then
      if condition == 0 then Keep(s) else Move(s, i)
    else
      Fault(s)
  }

  /** A false condition: only C1 is cleared. */
  function Keep(s: State): (r: State)
    ensures r.st == s.st && r.tag == s.tag && r.control == s.control
    ensures SameOutside(r.status, s.status, C1) && !Has(r.status, C1) && Top(r) == Top(s)
  {
    var t := Recode(s, C1, 0);
    SameTop(t, s, C1);
    t
  }

  /** The move: ST(i) is in use, so getSt reads it and leaves the state
      alone, and setSt(0, value) follows. */
  function Move(s: State, i: bv32): (r: State)
    requires GetStTag(s, i) != TagEmpty
    ensures GetStFast(r, 0) == GetStFast(s, i) && GetStTag(r, 0) == Classify(GetStFast(s, i))
    ensures forall q: Slot :: q != Top(s) ==> r.st[q] == s.st[q] && TagAt(r.tag, q) == TagAt(s.tag, q)
    ensures Top(r) == Top(s) && r.control == s.control
    ensures SameOutside(r.status, s.status, C1) && !Has(r.status, C1)
  {
    var t := Recode(s, C1, 0);
    var a := GetSt(t, i);
    MoveFacts(s, t, i, a, SetSt(a.state, 0, a.value));
    SetSt(a.state, 0, a.value)
  }

  /** An empty ST(i): `statusWord |= 0x41` and +0.0 stored in ST(0). */
  function Fault(s: State): (r: State)
    ensures GetStFast(r, 0) == Zero(false) && GetStTag(r, 0) == TagZero && Has(r.status, StackUnderflow)
    ensures forall q: Slot :: q != Top(s) ==> r.st[q] == s.st[q] && TagAt(r.tag, q) == TagAt(s.tag, q)
    ensures Top(r) == Top(s) && r.control == s.control && !Has(r.status, C1)
    ensures r.status == (s.status & !C1) | StackUnderflow
  {
    var t := Recode(s, C1, 0);
    var u := t.(status := t.status | StackUnderflow);
    EmptyFacts(s, t, u, SetSt(u, 0, Zero(false)));
    EmptyStatus(s, t, u, SetSt(u, 0, Zero(false)));
    SetSt(u, 0, Zero(false))
  }

  lemma MoveFacts(s: State, t: State, i: bv32, a: Read, r: State)
    requires t == Recode(s, C1, 0) && GetStTag(s, i) != TagEmpty
    requires a == GetSt(t, i) && r == SetSt(a.state, 0, a.value)
    ensures GetStFast(r, 0) == GetStFast(s, i) && GetStTag(r, 0) == Classify(GetStFast(s, i))
    ensures forall q: Slot :: q != Top(s) ==> r.st[q] == s.st[q] && TagAt(r.tag, q) == TagAt(s.tag, q)
    ensures Top(r) == Top(s) && r.control == s.control
    ensures SameOutside(r.status, s.status, C1) && !Has(r.status, C1)
  {
    ReadIgnoresFlags(s, t, i, C1);
    SameTop(t, s, C1);
    assert a.state == t;
    FirstWrite(t, r, a.value);
    assert StIndex(r, 0) == Top(s);
  }

  lemma EmptyFacts(s: State, t: State, u: State, r: State)
    requires t == Recode(s, C1, 0) && u == t.(status := t.status | StackUnderflow)
    requires r == SetSt(u, 0, Zero(false))
    ensures GetStFast(r, 0) == Zero(false) && GetStTag(r, 0) == TagZero && Has(r.status, StackUnderflow)
    ensures forall q: Slot :: q != Top(s) ==> r.st[q] == s.st[q] && TagAt(r.tag, q) == TagAt(s.tag, q)
    ensures Top(r) == Top(s) && r.control == s.control && !Has(r.status, C1)
  {
    RaiseUnderflow(s, t, u);
    FirstWrite(u, r, Zero(false));
    assert StIndex(r, 0) == Top(s);
  }

  lemma EmptyStatus(s: State, t: State, u: State, r: State)
    requires t == Recode(s, C1, 0) && u == t.(status := t.status | StackUnderflow)
    requires r == SetSt(u, 0, Zero(false))
    ensures r.status == (s.status & !C1) | StackUnderflow
  {
    RecodeClears(s, t);
  }

  lemma RaiseUnderflow(s: State, t: State, u: State)
    requires t == Recode(s, C1, 0) && u == t.(status := t.status | StackUnderflow)
    ensures Top(u) == Top(s) && !Has(u.status, C1) && Has(u.status, StackUnderflow)
    ensures u.st == s.st && u.tag == s.tag && u.control == s.control
  {
    SameTop(t, s, C1);
    SameTop(u, t, StackUnderflow);
  }

  /** A second fcmov from the same register changes nothing more: ST(0)
      already holds the value and the tag it would write. */
  lemma FcmovTwice(s: State, condition: bv32, i: bv32)
    requires GetStTag(s, i) != TagEmpty
    ensures Fcmov(Fcmov(s, condition, i), condition, i) == Fcmov(s, condition, i)
  {
    var r := Fcmov(s, condition, i);
    assert StIndex(r, i) == StIndex(s, i);
    if condition == 0 {
      assert GetStTag(r, i) == GetStTag(s, i);
      FcmovInUse(r, condition, i);
    } else {
      SecondRead(s, r, i);
      FcmovInUse(r, condition, i);
      WriteOwnValue(r, GetStFast(r, 0));
    }
  }

  lemma SecondRead(s: State, r: State, i: bv32)
    requires Top(r) == Top(s) && GetStTag(s, i) != TagEmpty
    requires forall q: Slot :: q != Top(s) ==> r.st[q] == s.st[q] && TagAt(r.tag, q) == TagAt(s.tag, q)
    requires GetStFast(r, 0) == GetStFast(s, i) && GetStTag(r, 0) == Classify(GetStFast(s, i))
    ensures GetStTag(r, i) != TagEmpty && GetStFast(r, i) == GetStFast(s, i)
  {
    assert StIndex(r, i) == StIndex(s, i) && StIndex(r, 0) == Top(s);
  }

  /** fcmov from a register in use, on a state whose C1 is already clear:
      nothing for a false condition, otherwise setSt(0, ST(i)). */
  lemma FcmovInUse(r: State, condition: bv32, i: bv32)
    requires GetStTag(r, i) != TagEmpty && !Has(r.status, C1)
    ensures Fcmov(r, condition, i) == if condition == 0 then r else SetSt(r, 0, GetStFast(r, i))
  {
    if condition == 0 {
      KeepCleared(r);
    } else {
      MoveCleared(r, i);
    }
  }

  lemma KeepCleared(r: State)
    requires !Has(r.status, C1)
    ensures Keep(r) == r
  {
    ClearedAlready(r.status);
  }

  lemma MoveCleared(r: State, i: bv32)
    requires GetStTag(r, i) != TagEmpty && !Has(r.status, C1)
    ensures Move(r, i) == SetSt(r, 0, GetStFast(r, i))
  {
    ClearedAlready(r.status);
    assert Recode(r, C1, 0) == r;
  }

  lemma ClearedAlready(w: bv16)
    requires !Has(w, C1)
    ensures (w & !C1) | 0 == w
  {
  }

  /** Storing back the value ST(0) holds, with the tag it already has,
      changes nothing. */
  lemma WriteOwnValue(r: State, v: Value)
    requires GetStFast(r, 0) == v && GetStTag(r, 0) == Classify(v)
    ensures SetSt(r, 0, v) == r
  {
    var p := StIndex(r, 0);
    OwnTag(r.tag, p, Classify(v));
    assert r.st[p := v] == r.st;
  }

  /** Writing a slot's own tag back leaves the tag word as it was. */
  lemma OwnTag(tag: bv16, p: Slot, t: Tag)
    requires TagAt(tag, p) == t
    ensures WithTag(tag, p, t) == tag
  {
    var w := WithTag(tag, p, t);
    forall q: Slot
      ensures Field(w, q) == Field(tag, q)
    {
      if q == p {
        assert TagAt(w, q) == t;
      } else {
        assert TagAt(w, q) == TagAt(tag, q);
      }
      SameTagSameField(w, tag, q);
    }
    FieldsDetermineTag(w, tag);
  }

  // ---------------------------------------------------------------------
  // Initialisation

  /** x87_init and x87_set_init_state: whatever the state was, control
      0x037F, status 0, tag word 0xFFFF and every slot +0.0. */
  function Init(s: State): (r: State)
    ensures Top(r) == 0 && RoundingOf(r.control) == ToNearest
    ensures forall i: bv32 :: GetStTag(r, i) == TagEmpty
    ensures forall i: bv32 :: GetStFast(r, i) == Zero(false)
    ensures r.status == 0 && r.control == 0x037F
  {
    var r := Initial();
    forall i: bv32
      ensures GetStTag(r, i) == TagEmpty && GetStFast(r, i) == Zero(false)
    {
    }
    r
  }

  /** Right after initialisation every register reads as a stack fault. */
  lemma InitReadsEmpty(s: State, i: bv32)
    ensures GetSt(Init(s), i).value == QuietNaN
    ensures Has(GetSt(Init(s), i).state.status, StackUnderflow)
  {
  }

  /** The first load after initialisation lands in slot 7. */
  lemma InitThenPush(s: State)
    ensures Top(Push(Init(s))) == 7
    ensures GetStTag(Push(Init(s)), 0) == TagValid
    ensures forall i: bv32 :: i & 7 != 0 ==> GetStTag(Push(Init(s)), i) == TagEmpty
  {
    var p := Push(Init(s));
    forall i: bv32 | i & 7 != 0
      ensures GetStTag(p, i) == TagEmpty
    {
      StIndexLowBits(p, i);
    }
  }
}
