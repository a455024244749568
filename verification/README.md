# rosettax87 x87 core in Dafny

This project models the core of rosettax87's x87 floating-point runtime and
proves properties of the model. rosettax87 replaces Rosetta 2's x87 handlers
with its own C++ ones. The core has three parts:

- **The register-stack state** (`X87State`): the control, status and tag words
  plus eight register slots. The status word holds TOP in bits 11-13. `ST(i)`
  lives in physical slot `(i + TOP) & 7`, and each slot has a two-bit tag
  (valid, zero, special or empty). The primitives are `push`, `pop`, `getSt`,
  `getStConst`, `getStConst32`, `getStTag`, `setSt`, `setStFast`, `getStFast`
  and `swap_registers`. The modelled build keeps a double in each slot
  (`X87_CONVERT_TO_FP80` undefined).
- **The number-format codecs**, as bit patterns:
  - the 80-bit extended to binary64 narrowing;
  - the binary64 to 80-bit widening;
  - the 80-bit to binary32 narrowing;
  - the binary32 to 80-bit widening inside `x87_fst_fp80`;
  - the packed-BCD decoder `BCD2Double` and the encoder in `x87_fbstp`.
- **The handlers' state effects**:
  - loads (`fld*`, `fild`, `fbld`, `fld_constant`) and stores (`fst*`, `fist*`, `fistt*`, `fbstp`);
  - arithmetic in register, memory and integer form;
  - comparisons (`fcom*`, `fucom`, `ficom`, `fcomi`, `fucomi`) and `fxam`;
  - `fincstp`, `fdecstp`, `fxch`, `fcmov`, `fprem`, `fprem1` and `fscale`;
  - initialisation.

Words are `bv16`. A stored double is an abstract `Value`: a signed zero, a
normal or subnormal number with a positive real magnitude, a signed infinity,
or a NaN. The host's IEEE operations and the libm kernels (`fmod`, `remquo`,
`ilogb`, float narrowing) are function parameters. They are never axiomatised.
A C++ cast whose result is undefined (a NaN or an out-of-range value reaching
`static_cast<int>`, a shift by 64, a signed overflow) makes the result `None`.

Modules follow the source: `Words` (flag and mask constants), `Values`,
`X87State`, `Loads`, `Stores`, `Comparisons`, `Arithmetic`, `StackControl`,
`Remainder`, `Scale`, `Float80`, `Float32`, `Widen32`, `Bcd` and `ByteOrder`.

## Model

| member | source | states |
|---|---|---|
| Words.RoundingOf | rosettaRuntime/X87State.h:64-69 | The rounding mode is decoded from control bits 10-11: each of the four modes holds exactly when the field has its constant. |
| Words.TagOfCode | rosettaRuntime/X87State.h:42-47 | Decoding a two-bit tag field gives the tag whose code it is. |
| Words.TagCodeRoundTrip | rosettaRuntime/X87State.h:42-47 | Encoding a tag and decoding it again gives the tag back. |
| Values.Compare | rosettaRuntime/X87.cpp:434-440 | A comparison's outcome: `Lt` exactly when C++ `a < b` holds, `Gt` exactly when `b < a` holds, `Unordered` exactly when a side is a NaN. |
| Values.EqualMeansSameNumber | rosettaRuntime/X87.cpp:434-440 | "Neither less nor greater" between ordered values means the same extended real; both zeros count as equal. |
| Values.LessTransitive | rosettaRuntime/X87.cpp:434-440 | C++ `<` on doubles is transitive. |
| Values.Abs | rosettaRuntime/X87.cpp:332 | `fabs` gives a non-negative result that differs from its operand only in the sign. A finite value becomes its distance from zero. A NaN stays a NaN, an infinity an infinity and a zero a zero. |
| Values.Trunc | rosettaRuntime/X87.cpp:1042-1050 | Truncation is the integer between the value and zero that is less than one away from it. |
| Values.RoundHalfEven | rosettaRuntime/X87.cpp:938-940 | `nearbyint` under round-to-nearest is within half a unit, and a tie goes to the even integer. |
| Values.RoundHalfEvenIsNearest | rosettaRuntime/X87.cpp:938-940 | No integer is strictly nearer to the value than that rounding. |
| Values.DoubleValue | rosettaRuntime/X87.cpp:1213-1222 | A binary64 pattern's class and sign are decided by its fields: NaN, infinity, zero and subnormal each match their field pattern exactly. |
| Values.SingleValue | rosettaRuntime/X87.cpp:1198-1207 | The same for a binary32 pattern, widened exactly. |
| Values.IntToValue | rosettaRuntime/X87.cpp:809-815 | `static_cast<double>` of an integer is zero exactly for 0, keeps the sign, and is exact below 2^53. |
| Values.CastToInt32 | rosettaRuntime/X87.cpp:1508 | `static_cast<int>` is defined exactly on the finite values strictly between -2^31-1 and 2^31, and then truncates toward zero. |
| Values.CastIntRoundTrip | rosettaRuntime/X87.cpp:1508 | Converting an int to double and casting back gives the int. |
| Values.Int64MaxRoundsUp | rosettaRuntime/X87.cpp:978-983 | `static_cast<double>(INT64_MAX)` is 2^63, one beyond the type. |
| Values.Int64MinExact | rosettaRuntime/X87.cpp:985-990 | `static_cast<double>(INT64_MIN)` is exactly -2^63. |
| X87State.Top | rosettaRuntime/X87State.h:301-303 | `topIndex()` is a 3-bit value, in 0..7, and is exactly status bits 11-13. |
| X87State.WithTop | rosettaRuntime/X87State.h:371-385 | Writing TOP sets bits 11-13 and keeps every other status bit. |
| X87State.StIndex | rosettaRuntime/X87State.h:306-308 | `getStIndex(i)` minus TOP is `i & 7`, modulo 8, even when the 32-bit sum wraps. |
| X87State.Classify | rosettaRuntime/X87State.h:387-410 | setSt's tag is never empty: zero exactly for both zeros, special exactly for NaN, infinity and subnormals. |
| X87State.ClearTag | rosettaRuntime/X87State.h:371-377 | Clearing a slot's field tags it valid and leaves the seven other tags alone. |
| X87State.WithTag | rosettaRuntime/X87State.h:387-410 | Writing a slot's tag sets it and leaves the seven other tags alone. |
| X87State.Initial | rosettaRuntime/X87State.h:293-298 | The constructed state has control word 0x037F and status word 0: TOP 0, every exception masked, 64-bit precision, round-to-nearest, no flag and clear condition codes. Every tag is empty and every slot +0. |
| X87State.GetSt | rosettaRuntime/X87State.h:312-325 | An empty slot reads as the quiet NaN, raises 0x41 and changes nothing else. Any other slot reads its value and leaves the state unchanged. |
| X87State.GetStConst | rosettaRuntime/X87State.h:327-344 | It reads what getSt reads, and reports getSt's status word with C1 cleared. |
| X87State.GetStConst32 | rosettaRuntime/X87State.h:346-363 | Same status as getStConst. It reads the float quiet NaN for an empty slot and the narrowed stored value otherwise. |
| X87State.Push | rosettaRuntime/X87State.h:371-377 | TOP moves down by one and the new top's tag becomes valid. Every other status bit, every other tag, every slot and the control word are unchanged. |
| X87State.Pop | rosettaRuntime/X87State.h:379-385 | TOP moves up by one and the old top is tagged empty and zeroed. Every other status bit, tag and slot, and the control word, are unchanged. |
| X87State.PopN | rosettaRuntime/X87.cpp:449-451 | Any number of pops changes only TOP, the tags and the slots. |
| X87State.SetSt | rosettaRuntime/X87State.h:387-410 | setSt writes only the slot of ST(i) and tags it by the value's class. Other tags, the status word and the control word are unchanged. |
| X87State.SetStFast | rosettaRuntime/X87State.h:412-423 | setStFast writes only the slot of ST(i) and tags it valid whatever the value. The status word is untouched. |
| X87State.Recode | rosettaRuntime/X87.cpp:1329-1331 | Clearing a mask and setting codes inside it changes nothing outside the mask. |
| X87State.SwapRegisters | rosettaRuntime/X87State.h:439-456 | The values and tags of the two slots are exchanged. The other six slots, their tags and both words are untouched. |
| X87State.SwapTags | rosettaRuntime/X87State.h:447-455 | The tag-word half exchanges the two fields and keeps the other six. |
| X87State.PushThenPop | rosettaRuntime/X87State.h:371-385 | A push then a pop restores the status word exactly, including TOP. The pushed slot is left empty and zeroed, and every other tag and slot is restored. |
| X87State.PushNTop | rosettaRuntime/X87State.h:371-377 | After n pushes TOP has moved down by n mod 8. |
| X87State.PopNTop | rosettaRuntime/X87State.h:379-385 | After n pops TOP has moved up by n mod 8. |
| X87State.EightPushesRestoreTop | rosettaRuntime/X87State.h:371-377 | Eight pushes bring TOP back: the stack is a ring. |
| X87State.PushShiftsIndex | rosettaRuntime/X87State.h:371-377 | What was ST(i) is ST(i+1) after a push, value and (unless it wraps onto the new top) tag. |
| X87State.PopShiftsIndex | rosettaRuntime/X87State.h:379-385 | What was ST(i+1) is ST(i) after a pop, unless it wraps onto the emptied slot. |
| X87State.ReadIgnoresFlags | rosettaRuntime/X87State.h:312-325 | What getSt reads does not depend on status flags outside TOP. |
| X87State.ReadFrame | rosettaRuntime/X87State.h:312-325 | getSt changes nothing but the 0x41 bits. |
| X87State.SwapTwice | rosettaRuntime/X87State.h:439-456 | swap_registers applied twice is the identity. |
| X87State.FieldsDetermineTag | rosettaRuntime/X87State.h:284 | A tag word is determined by its eight two-bit fields. |
| X87State.SetStReadsBack | rosettaRuntime/X87State.h:387-437 | A value stored by setSt or setStFast reads back through getSt (and getStFast) with no flag raised. |
| X87State.ReadBoth | rosettaRuntime/X87.cpp:427-428 | Reading ST(0) and then ST(i) returns both values, changes only the 0x41 bits, and keeps TOP. |
| X87State.ReadBothFlagsEmpty | rosettaRuntime/X87.cpp:427-428 | After the two reads the 0x41 bits are set exactly when one of the slots is empty or they were set already. With both slots in use nothing changes. |
| X87State.ClearAndRead | rosettaRuntime/X87.cpp:1329-1334 | After clearing a mask and reading both operands, the mask is clear and the values are the ones getSt reads from the original state. The 0x41 bits report an empty operand, and with both in use the state is just the cleared one. |
| Loads.Load | rosettaRuntime/X87.cpp:1213-1222 | `push(); setSt(0, v)`: TOP moves down and the new top holds v tagged by class. Every other slot and tag is unchanged, and the status word is unchanged outside TOP. |
| Loads.LoadReadsBack | rosettaRuntime/X87.cpp:1213-1222 | The loaded value reads back as ST(0) with no flag. |
| Loads.LoadShiftsStack | rosettaRuntime/X87.cpp:1213-1222 | ST(i) before a load is ST(i+1) after it, value and tag, for i in 0..6. |
| Loads.LoadThenPop | rosettaRuntime/X87.cpp:152-155 | Popping a loaded value (x87_pop_register_stack) restores the status word and leaves what a bare push and pop leave. |
| Loads.FldSt | rosettaRuntime/X87.cpp:1114-1128 | The new ST(0) holds what ST(i) read as before, tagged by its class. Every other slot keeps its value and tag. TOP moves down and C1 is clear. Nothing in the status word changes except C1, the 0x41 bits and TOP. |
| Loads.FldStCopies | rosettaRuntime/X87.cpp:1114-1128 | After `fld ST(i)` from a slot in use, ST(0) and the source, now ST(i+1), hold the same value. |
| Loads.FldConstant | rosettaRuntime/X87.cpp:1134-1192 | A listed selector pushes its constant: TOP moves down, the new top holds the constant tagged by its class, every other slot and tag is kept, and neither word changes outside TOP. An unlisted selector leaves the state unchanged. |
| Loads.ConstantsTagged | rosettaRuntime/X87.cpp:1134-1192 | Exactly fldz is tagged zero. Every other constant is tagged valid, and fld1 loads 1. |
| Loads.PiLoaded | rosettaRuntime/X87.cpp:1152-1157 | fldpi loads pi rounded to single precision, 13176795/2^22, within 1e-7 of pi. |
| Loads.Log2eLoaded | rosettaRuntime/X87.cpp:1159-1164 | fldl2e loads log2(e) rounded to single precision. |
| Loads.Loge2Loaded | rosettaRuntime/X87.cpp:1166-1171 | fldln2 loads ln 2 rounded to single precision. |
| Loads.Log2tLoaded | rosettaRuntime/X87.cpp:1173-1178 | fldl2t loads log2(10) rounded to single precision. |
| Loads.Log102Loaded | rosettaRuntime/X87.cpp:1180-1185 | fldlg2 loads log10(2) rounded to single precision. |
| Loads.FldFp32 | rosettaRuntime/X87.cpp:1198-1207 | Pushes the float's exact value: TOP moves down, the new top holds it tagged by its class, every other slot and tag is kept, and neither word changes outside TOP. |
| Loads.FldFp64 | rosettaRuntime/X87.cpp:1213-1222 | Pushes the double's value with the same push frame: the new top tagged by class, every other slot and tag kept, and neither word changed outside TOP. |
| Loads.Fp64Tagged | rosettaRuntime/X87State.h:387-410 | The tag fld gives a binary64 pattern is zero exactly for ±0, and special exactly for an all-ones or all-zeros exponent with a non-zero rest. |
| Loads.Fp32Tagged | rosettaRuntime/X87State.h:387-410 | The same for a binary32 pattern. |
| Loads.FldFp80 | rosettaRuntime/X87.cpp:1228-1236 | Pushes the 80-bit value's binary64 conversion with the push frame. Outside TOP the status word is the old one with the conversion's flags ORed in. The control word is kept. |
| Loads.Fp80OfWidenedDouble | rosettaRuntime/X87.cpp:1228-1236 | Loading the 80-bit widening of a normal double is exactly loading the double. |
| Loads.Fp80NaN | rosettaRuntime/X87State.h:218-227 | An 80-bit NaN loads a NaN and raises invalid operation. |
| Loads.Fild | rosettaRuntime/X87.cpp:809-815 | Pushes the integer converted to double with the push frame: the new top tagged by class, every other slot and tag kept, and neither word changed outside TOP. |
| Loads.FildExact | rosettaRuntime/X87.cpp:809-815 | An integer below 2^53 in magnitude loads exactly, tagged zero for 0 and valid otherwise. |
| Loads.Fbld | rosettaRuntime/X87.cpp:288-304 | Pushes the BCD value of the ten bytes copied out of the two words, with the push frame. C1 is clear, and nothing else in the status word changes outside TOP. The control word is kept. |
| Loads.FbldLoadsDigits | rosettaRuntime/X87.cpp:288-304 | Valid digits below 2^53 load the signed integer they spell, negative exactly when bit 15 of the high word is set. |
| Stores.RoundBy | rosettaRuntime/X87.cpp:935-960 | The rounding-mode dispatch: nearest-even, floor, ceiling or truncation, each characterised by its defining inequality. |
| Stores.Saturate | rosettaRuntime/X87.cpp:921-962 | Out of range stores MIN with C1 set. Otherwise the result is defined exactly when the value is finite and its rounding fits, and is then the rounding with the status unchanged. |
| Stores.Fist | rosettaRuntime/X87.cpp:858-1022 | The corrected store, with `>` for the 32-bit upper test where line 922 has `>=`; the source's store is Stores.FistAsWritten. Values beyond either bound store MIN with C1 set, and C1 is only ever set with MIN. Any other value stores its rounding under the control word's mode, with getStConst's status. It is defined exactly when that rounding fits, which for 16 and 32 bits means exactly when the value is not a NaN. A stored value always fits the type. |
| Stores.FistAsWritten | rosettaRuntime/X87.cpp:858-1022 | The stores as written. For 16 and 64 bits it is the corrected store. Values that pass the source's `>=` test against INT32_MAX, or either lower test, store MIN with C1 set. Any other value stores its rounding under the control word's mode, and is defined exactly when that rounding fits. |
| Stores.FistStoresIntegers | rosettaRuntime/X87.cpp:858-1022 | An integral value strictly above MIN and at most MAX stores as itself with the status unchanged, in every rounding mode. |
| Stores.NotSaturated | rosettaRuntime/X87.cpp:858-1022 | A finite value in (MIN, MAX] passes both saturation tests, for all three widths. |
| Stores.AsWrittenRejectsInt32Max | rosettaRuntime/X87.cpp:922 | As written, fist to 32 bits stores 2147483647.0 as INT32_MIN with C1. The corrected store returns 2147483647. |
| Stores.AsWrittenAgrees | rosettaRuntime/X87.cpp:858-1022 | Apart from that one 32-bit input, the written tests and the corrected ones store the same thing. |
| Stores.FildThenFist | rosettaRuntime/X87.cpp:809-815 | fild then fist to 64 bits gives back every integer below 2^53 in magnitude. |
| Stores.Fistt | rosettaRuntime/X87.cpp:1028-1064 | fistt is defined exactly when the value is finite and its truncation fits. It then stores that truncation toward zero and reports getStConst's status. |
| Stores.FisttIsFistTowardZero | rosettaRuntime/X87.cpp:1028-1064 | On a value in (MIN, MAX] under round-toward-zero, fistt stores what fist stores. |
| Stores.FstSt | rosettaRuntime/X87.cpp:1594-1609 | The slot of ST(i) receives what ST(0) read as, tagged by class, unless a pop then empties it. A pop moves TOP up and empties and zeroes the old top. Every other slot keeps its value and tag. C1 is clear, and the 0x41 bits are set exactly when ST(0) was empty or they were already set. No other status bit changes except TOP. |
| Stores.FstpOneKeepsTop | rosettaRuntime/X87.cpp:1594-1609 | `fstp ST(1)` leaves the old ST(0) value on top. |
| Stores.Fst32 | rosettaRuntime/X87.cpp:1615-1623 | Stores the narrowed ST(0), with the status word the old one with C1 cleared. For an empty ST(0) it stores the quiet NaN, and the status word is the old one with C1 cleared and 0x41 set. |
| Stores.Fp32LoadThenStore | rosettaRuntime/X87.cpp:1198-1207 | A float loaded and stored back is the float, for a narrowing that keeps single-precision values. |
| Stores.Fst64 | rosettaRuntime/X87.cpp:1629-1638 | Stores what getSt reads, with getSt's status and C1 cleared. |
| Stores.Fp64LoadThenStore | rosettaRuntime/X87.cpp:1213-1222 | A double loaded and stored back is the double, with the status unchanged except for C1. |
| Stores.Fst80AsWritten | rosettaRuntime/X87.cpp:1644-1698 | The source's store: getStConst's status and the as-written widening of the narrowed float. |
| Stores.Fst80 | rosettaRuntime/X87.cpp:1644-1698 | The corrected store keeps the float's sign and agrees with the source on every float that is not subnormal. |
| Stores.Fp32LoadThenStore80 | rosettaRuntime/X87.cpp:1644-1698 | A normal float loaded, stored as 80 bits and narrowed again is the float, with no flag. |
| Stores.Fbstp | rosettaRuntime/X87.cpp:310-371 | Returns the packed encoding of what ST(0) read as. Pops: TOP moves up and the old top is emptied and zeroed, while every other slot keeps its value and tag. The 0x41 bits are set exactly when ST(0) was empty or they were already set. No other status bit changes except TOP, so C1 is left alone. |
| Stores.FbldThenFbstp | rosettaRuntime/X87.cpp:288-371 | fbld then fbstp returns the low word and the defined 16 bits of the high word fbld was given, for valid digits below 2^53. The status word comes back unchanged apart from C1. |
| Comparisons.OrderCodes | rosettaRuntime/X87.cpp:434-440 | The chain only ever sets bits among C0, C2 and C3. |
| Comparisons.FcomCodesReport | rosettaRuntime/X87.cpp:430-446 | fcom's codes read as the IEEE comparison when the exception is masked or the operands are ordered, and as "equal" for a NaN with the exception unmasked. |
| Comparisons.FucomCodesReport | rosettaRuntime/X87.cpp:1820-1845 | fucom's codes always read as the IEEE comparison, unordered included. |
| Comparisons.FcomSt | rosettaRuntime/X87.cpp:421-452 | Without pops only C0, C2, C3 and the 0x41 bits change. With pops the result is exactly X87State.PopN of the non-popping result, so TOP moves up by the pop count, modulo 8. |
| Comparisons.Fucom | rosettaRuntime/X87.cpp:1820-1845 | The same frame as fcom, and with pops exactly X87State.PopN of the non-popping result. |
| Comparisons.FcomReportsOrdering | rosettaRuntime/X87.cpp:421-452 | fcom ST(i) reports the comparison of ST(0) with ST(i), or "equal" for a NaN with the exception unmasked. |
| Comparisons.FucomReportsOrdering | rosettaRuntime/X87.cpp:1820-1845 | fucom ST(i) reports the comparison of ST(0) with ST(i). |
| Comparisons.CompareFlagsEmptyOperand | rosettaRuntime/X87.cpp:421-452 | The 0x41 bits are set after a compare exactly when an operand slot is empty or they were set already. |
| Comparisons.FcomF32 | rosettaRuntime/X87.cpp:458-484 | Without a pop only the condition codes and the 0x41 bits change. With a pop the result is exactly X87State.Pop of the non-popping result. C1 is clear. |
| Comparisons.FcomF64 | rosettaRuntime/X87.cpp:490-516 | Without a pop only C0, C2, C3 and the 0x41 bits change. With a pop the result is exactly X87State.Pop of the non-popping result. |
| Comparisons.Ficom | rosettaRuntime/X87.cpp:738-761 | The same frame for the int32 operand. With a pop the result is exactly X87State.Pop of the non-popping result. |
| Comparisons.MemoryComparesReportOrdering | rosettaRuntime/X87.cpp:458-516 | The f32 and f64 forms report the comparison with the decoded operand under the masking rule; ficom (738-761) always reports it. |
| Comparisons.ComiFlagsReport | rosettaRuntime/X87.cpp:543-549 | The flag word names less, greater or equal, and an unordered pair reads as equal. |
| Comparisons.Comi | rosettaRuntime/X87.cpp:522-556 | Without a pop only the cleared bit and the 0x41 bits change. With a pop the flags are those of the non-popping form and the state is X87State.Pop of its state. |
| Comparisons.Fcomi | rosettaRuntime/X87.cpp:522-556 | Without a pop only C0 and the 0x41 bits change, and C0 is clear. With a pop the flags are those of the non-popping form and the state is X87State.Pop of its state. |
| Comparisons.Fucomi | rosettaRuntime/X87.cpp:1851-1886 | Without a pop only C1 and the 0x41 bits change, and C1 is clear. With a pop the flags are those of the non-popping form and the state is X87State.Pop of its state. |
| Comparisons.ComiReportsOrdering | rosettaRuntime/X87.cpp:522-556 | fcomi's flags report the comparison, unordered as equal. They equal fucomi's, and agree with fcom's codes on ordered operands. |
| Comparisons.FxamCodes | rosettaRuntime/X87.cpp:1892-1937 | The codes lie within C0-C3. |
| Comparisons.Fxam | rosettaRuntime/X87.cpp:1892-1937 | fxam changes only the condition codes. |
| Comparisons.FxamClassifies | rosettaRuntime/X87.cpp:1892-1937 | With a tag consistent with its slot, the codes decode by the Intel table to the slot's class (empty included), and C1 is the sign of a non-zero value. |
| Comparisons.FxamTrustsTag | rosettaRuntime/X87.cpp:1909-1917 | A zero tagged valid is reported as a normal number, and a zero-tagged slot is reported as a zero with C1 clear, whatever its sign. |
| Arithmetic.Apply | rosettaRuntime/X87.cpp:1762-1780 | The reversed forms compute `b op a`, the plain forms `a op b`. |
| Arithmetic.Flip | rosettaRuntime/X87.cpp:1762-1780 | The flipped operation computes `op(b, a)` for all operands. |
| Arithmetic.ArithSt | rosettaRuntime/X87.cpp:206-223 | Without a pop, only ST(i1) changes: it holds `ST(i1) op ST(i2)` tagged valid, and every other slot and tag is kept. The status word is the old one with C1 cleared. With a pop, the result is exactly X87State.Pop applied to the non-popping result. The status word changes only in C1, which is clear, and in TOP. The control word is kept. |
| Arithmetic.ReversedIsFlipped | rosettaRuntime/X87.cpp:1704-1780 | fsubr is fsub on the flipped operation. |
| Arithmetic.PopFrame | rosettaRuntime/X87.cpp:206-223 | In every popping register form, the result stays in the slot of ST(i1) unless that slot was the top. The old top is empty and zeroed, and every other slot keeps its value and tag. |
| Arithmetic.PopLandsOnTop | rosettaRuntime/X87.cpp:206-223 | In the popping form on ST(1), ST(0), the result is the new ST(0), tagged valid, and the old top is empty. |
| Arithmetic.ArithMem | rosettaRuntime/X87.cpp:246-257 | Only ST(0) changes: it holds `ST(0) op x` tagged valid. TOP is kept. The status word is the old one with C1 cleared, and the control word is kept. |
| Arithmetic.MemoryIsRegisterForm | rosettaRuntime/X87.cpp:206-257 | The memory form is the register form against a register holding the operand. |
| Arithmetic.ArithF32 | rosettaRuntime/X87.cpp:229-240 | ST(0) holds `ST(0) op f`, with the float widened exactly, tagged valid. Every other slot keeps its value and tag. The status word is the old one with C1 cleared, and the control word is kept. |
| Arithmetic.ArithF64 | rosettaRuntime/X87.cpp:246-257 | ST(0) holds `ST(0) op d`, tagged valid. Every other slot keeps its value and tag. The status word is the old one with C1 cleared, and the control word is kept. |
| Arithmetic.ArithInt | rosettaRuntime/X87.cpp:715-732 | ST(0) holds getSt's ST(0) combined with the converted integer, tagged by class. Only ST(0) changes. C1 is clear. The 0x41 bits are set exactly when ST(0) was empty or they were already set. No other status bit and not the control word changes. |
| Arithmetic.IntegerIsMemoryForm | rosettaRuntime/X87.cpp:715-732 | On a non-empty ST(0) with a normal result, the integer form is the memory form. |
| StackControl.Fincstp | rosettaRuntime/X87.cpp:840-855 | TOP moves up by one, modulo 8. No tag, slot or control bit changes, and no status bit except C1 (cleared). |
| StackControl.Fdecstp | rosettaRuntime/X87.cpp:581-593 | TOP moves down by one, modulo 8, with the same frame. |
| StackControl.IncThenDec | rosettaRuntime/X87.cpp:581-593 | fdecstp after fincstp restores the state, with C1 cleared. |
| StackControl.DecThenInc | rosettaRuntime/X87.cpp:840-855 | fincstp after fdecstp restores the state, with C1 cleared. |
| StackControl.FincstpShiftsIndex | rosettaRuntime/X87.cpp:840-855 | After fincstp, ST(i) is what ST(i+1) was, value and tag. |
| StackControl.Fxch | rosettaRuntime/X87.cpp:1943-1956 | ST(i) receives what ST(0) read as. ST(0) receives what ST(i) read as unless both are one slot. TOP is kept, and the 0x41 bits report an empty operand. C1 is clear, and no other status bit changes. |
| StackControl.FxchFrame | rosettaRuntime/X87.cpp:1943-1956 | The written slots are tagged by class, and every other slot and tag is untouched. C1 is clear, no status bit but C1 and the 0x41 bits changes, and the control word is kept. |
| StackControl.Exchange | rosettaRuntime/X87.cpp:1954-1955 | The two setSt calls write both slots, the second winning on a shared slot, and leave the words untouched. |
| StackControl.FxchIsSwap | rosettaRuntime/X87.cpp:1943-1956 | When both registers are in use with consistent tags, fxch is swap_registers with C1 cleared. |
| StackControl.Fcmov | rosettaRuntime/X87.cpp:392-415 | From a slot in use: nothing but C1 on a false condition, else a copy into ST(0) tagged by class. From an empty slot: +0 stored, tagged zero, and the status word the old one with C1 cleared and 0x41 set. Only ST(0) may change; TOP is kept and C1 is clear. |
| StackControl.FcmovTwice | rosettaRuntime/X87.cpp:392-415 | A second fcmov from the same register in use changes nothing. |
| StackControl.FcmovInUse | rosettaRuntime/X87.cpp:392-415 | With C1 already clear, fcmov from a register in use is the identity or `setSt(0, ST(i))`. |
| StackControl.Init | rosettaRuntime/X87.cpp:2058-2068 | Whatever the state, the control word is 0x037F, the status word 0, TOP 0 with round-to-nearest, and every register is empty and +0. |
| StackControl.InitReadsEmpty | rosettaRuntime/X87.cpp:139-143 | After initialisation every register reads as the quiet NaN and raises 0x41. |
| StackControl.InitThenPush | rosettaRuntime/X87.cpp:2058-2068 | The first push after initialisation lands in slot 7; the other seven registers stay empty. |
| Remainder.QuotientCodes | rosettaRuntime/X87.cpp:1354-1360 | The quotient bits land only in C0, C1 and C3. |
| Remainder.QuotientRoundTrip | rosettaRuntime/X87.cpp:1354-1360 | Reading C0, C3, C1 back gives the quotient's low three bits, `q mod 8`, for negative q too. |
| Remainder.CodesRoundTrip | rosettaRuntime/X87.cpp:1404-1411 | Every pattern of the three codes is the report of some quotient. |
| Remainder.TruncatedStep | rosettaRuntime/X87.cpp:1348-1351 | The step is defined exactly when the quotient's cast is. It is then fmod's remainder with the cast quotient. |
| Remainder.Reduce | rosettaRuntime/X87.cpp:1329-1345 | On any defined outcome, TOP and the control word are kept, and only ST(0) may change. |
| Remainder.InvalidResult | rosettaRuntime/X87.cpp:1337-1341 | ST(0) holds the quiet NaN tagged special. Invalid operation is raised and nothing else in the status changes. |
| Remainder.ReduceCodes | rosettaRuntime/X87.cpp:1354-1370 | The codes lie in C0-C3, carry the quotient bits, and hold C2 exactly when the gap reaches the threshold. |
| Remainder.Reduced | rosettaRuntime/X87.cpp:1348-1370 | Defined exactly when the step is and `e0 - e1` fits an int, and then the stored result. |
| Remainder.Store | rosettaRuntime/X87.cpp:1352-1370 | ST(0) holds the remainder tagged by class. Only the condition codes change, by the quotient bits and C2. TOP, the control word and the other slots are kept. |
| Remainder.Fprem | rosettaRuntime/X87.cpp:1325-1371 | Defined on special operands and on an infinite divisor. Otherwise it is defined exactly when the quotient casts to an int and the exponent gap fits an int. A defined result keeps TOP, the control word and every slot but ST(0). |
| Remainder.Fprem1 | rosettaRuntime/X87.cpp:1377-1423 | Undefined only when, on ordinary operands, the exponent gap overflows an int. A defined result keeps TOP, the control word and every slot but ST(0). |
| Remainder.InvalidOperands | rosettaRuntime/X87.cpp:1337-1341 | A NaN (or empty) operand, an infinite dividend or a zero divisor stores the quiet NaN, raises invalid operation, and reports quotient 0 with C2 clear. |
| Remainder.EmptyOperand | rosettaRuntime/X87.cpp:1333-1341 | An empty operand also leaves the stack-fault bit set. |
| Remainder.InfiniteDivisor | rosettaRuntime/X87.cpp:1342-1345 | A finite dividend over an infinite divisor only clears C0-C3. |
| Remainder.ReducedReports | rosettaRuntime/X87.cpp:1347-1370 | On ordinary operands the result is defined exactly when the step and the gap are. ST(0) holds the remainder, C0/C3/C1 spell `q mod 8`, and C2 says the gap reached the threshold. |
| Remainder.FpremReports | rosettaRuntime/X87.cpp:1347-1370 | fprem: undefined exactly when the truncated quotient or the gap overflows an int. Otherwise it reports the truncated quotient's bits, with C2 exactly when the gap is positive. |
| Remainder.Fprem1Reports | rosettaRuntime/X87.cpp:1398-1422 | fprem1: defined unless the gap overflows. It reports remquo's quotient bits, with C2 exactly when the gap is 64 or more. |
| Remainder.SpecialCasesAgree | rosettaRuntime/X87.cpp:1336-1345 | On special operands and an infinite divisor, fprem and fprem1 leave the same state. |
| Scale.FieldValue | rosettaRuntime/X87.cpp:1511-1513 | A double with a zero fraction is never NaN or subnormal. With exponent field e in 1..2046 it is the power of two 2^(e-1023). |
| Scale.ShiftedExponent | rosettaRuntime/X87.cpp:1511-1513 | The factor is never NaN or subnormal, and it is negative exactly when bit 11 of the exponent is set. |
| Scale.ShiftedExponentIsBitCast | rosettaRuntime/X87.cpp:1512-1513 | It is exactly the double whose bit pattern is the twelve bits shifted to position 52. |
| Scale.ExponentOnly | rosettaRuntime/X87.cpp:1513 | A double pattern with a zero fraction is the signed zero, power of two or infinity its exponent field names. |
| Scale.WrapIsInvisible | rosettaRuntime/X87.cpp:1512 | The uint64_t wrap-around of a negative exponent does not change the factor. |
| Scale.FactorAsWritten | rosettaRuntime/X87.cpp:1511-1513 | Undefined exactly when `scale + 1023` overflows int32, and otherwise the shifted-exponent double. |
| Scale.Clamped | rosettaRuntime/X87.cpp:1511 | The exponent is held in 0..2047: unchanged in range, 0 below, 2047 above. |
| Scale.Factor | rosettaRuntime/X87.cpp:1511-1513 | The corrected factor is never negative. |
| Scale.FactorIsPowerOfTwo | rosettaRuntime/X87.cpp:1510-1513 | The factor is 2^scale for scale in -1022..1023, +0 below and +infinity above. |
| Scale.AsWrittenAgreesInRange | rosettaRuntime/X87.cpp:1511-1513 | For scale -1023..1024 the source's factor equals the corrected one. |
| Scale.OverflowingScaleFlipsSign | rosettaRuntime/X87.cpp:1511-1513 | For scale 1025..3072 the source's factor is negative (-0 at 1025) where 2^scale overflows to +infinity. |
| Scale.UnderflowingScaleFlipsSign | rosettaRuntime/X87.cpp:1511-1513 | For scale -3071..-1024 the source's factor is negative (-infinity at -1024) where 2^scale underflows to +0. |
| Scale.Fscale | rosettaRuntime/X87.cpp:1496-1520 | The corrected handler, with the factor's exponent clamped where lines 1511-1513 shift it unchecked; the source's handler is Scale.FscaleAsWritten. Defined exactly when ST(1) casts to an int. ST(0) then holds `ST(0) * factor` tagged by class, and only ST(0) changes. TOP and the control word are kept and C1 is clear. |
| Scale.Scaled | rosettaRuntime/X87.cpp:1519 | setSt(0, v) after the reads: ST(0) holds v tagged by class and nothing else changes but the status word. |
| Scale.FscaleAsWritten | rosettaRuntime/X87.cpp:1496-1520 | The source's handler is defined exactly when the cast is and `scale + 1023` does not overflow, and it keeps TOP. |
| Scale.FscaleAgreesInRange | rosettaRuntime/X87.cpp:1496-1520 | For scale -1023..1024 the source's handler and the corrected one leave the same state. |
| Scale.FscaleMultipliesByPowerOfTwo | rosettaRuntime/X87.cpp:1496-1520 | fscale stores `ST(0) * 2^n`, with n the truncation of ST(1), for n in -1022..1023. |
| Scale.FscaleByInteger | rosettaRuntime/X87.cpp:1504-1516 | With an integer n in -1022..1023 in ST(1), fscale is defined and scales ST(0) by 2^n. |
| Float80.ToFloat64 | rosettaRuntime/X87State.h:203-249 | A zero mantissa gives the signed zero. An all-ones exponent gives the signed quiet NaN with invalid operation, or infinity for the bare integer bit. A rebiased exponent of 2047 or more gives the signed infinity with overflow. Below the subnormal range the result is the signed zero with underflow. |
| Float80.RoundTo52IsNearestEven | rosettaRuntime/X87State.h:251-276 | The rounding tail computes the reference ties-to-even rounding of the mantissa to 52 fraction bits, the carry running into the exponent. |
| Float80.RoundTo52Flags | rosettaRuntime/X87State.h:251-276 | Precision is raised exactly when one of the 11 dropped bits is set. Overflow is raised exactly when rounding reaches the infinity pattern. |
| Float80.CarryOut | rosettaRuntime/X87State.h:262-272 | Rounding reaches infinity only from exponent 2046 with an all-ones fraction that rounds up. |
| Float80.ToFloat64RoundsToNearestEven | rosettaRuntime/X87State.h:203-276 | In the normal range the conversion keeps the sign, rounds to nearest even, and raises exactly precision and overflow as above (section 4.3.1 of IEEE 754-2008). |
| Float80.NormalRangeTail | rosettaRuntime/X87State.h:229-276 | In the normal range the conversion is the rounding tail. |
| Float80.FromFloat64 | rosettaRuntime/X87State.h:155-199 | The corrected widening, which shifts a subnormal's fraction by `shift` where line 190 shifts by `shift + 1`; the source's widening is Float80.FromFloat64AsWritten. The widening keeps the sign in bit 15 of the exponent word. |
| Float80.FromFloat64AsWritten | rosettaRuntime/X87State.h:155-199 | The source's widening equals the corrected one on every input that is not subnormal. |
| Float80.AsWrittenDropsFirstFractionBit | rosettaRuntime/X87State.h:186-192 | On a subnormal the source's mantissa is the correct one shifted left once, with the integer bit forced on. The first fraction bit is lost and the exponent is the same. |
| Float80.AsWrittenLosesHalf | rosettaRuntime/X87State.h:186-192 | 0x000C000000000000 (1.5 * 2^-1023) widens as written to 1.0 * 2^-1023 and narrows back to 0x0008000000000000. The corrected widening narrows back to the input. |
| Float80.NormalizeScales | rosettaRuntime/X87State.h:189-190 | Normalising a fraction multiplies it by 2^k, k being the shift count clz(f) - 11. |
| Float80.FromFloat64Specials | rosettaRuntime/X87State.h:166-192 | Zeros and infinities widen to their extended counterparts with no flag. Invalid operation is raised exactly for a NaN, and the denormal flag exactly for a subnormal. |
| Float80.FromFloat64SubnormalExact | rosettaRuntime/X87State.h:186-192 | The corrected widening of a subnormal is normalised and denotes the same number f * 2^-1074. |
| Float80.NormalRoundTrip | rosettaRuntime/X87State.h:155-278 | Widening a normal double and narrowing it back gives the same 64 bits and no flag. |
| Float32.ToFloat32 | rosettaRuntime/X87State.h:76-153 | The corrected narrowing is undefined exactly at biased exponent 0x3F69, where the source shifts by 64. |
| Float32.ToFloat32Specials | rosettaRuntime/X87State.h:82-92 | Signed zeros and infinities narrow exactly. A NaN becomes the quiet NaN of its sign with invalid operation. |
| Float32.ToFloat32Flushes | rosettaRuntime/X87State.h:101-114 | Below the subnormal window a non-zero value becomes the signed zero with underflow and precision. |
| Float32.ToFloat32AsWritten | rosettaRuntime/X87State.h:76-153 | The source's narrowing equals the corrected one from the subnormal window up, and on zero. |
| Float32.ToFloat32RoundsToNearestEven | rosettaRuntime/X87State.h:116-143 | In the normal range the narrowing rounds to nearest even with precision and overflow raised exactly as the dropped bits and the carry decide. |
| Float32.CarryOut32 | rosettaRuntime/X87State.h:121-143 | Rounding reaches infinity only from exponent 254 with an all-ones fraction that rounds up. |
| Float32.ToFloat32KeepsSign | rosettaRuntime/X87State.h:76-153 | Every defined result of the corrected narrowing has the operand's sign. |
| Float32.AsWrittenFlipsSign | rosettaRuntime/X87State.h:101-143 | The source narrows +2^-151 (biased exponent 0x3F68) to the negative pattern 0xF4000000. The corrected narrowing gives +0. |
| Widen32.FromFloat32 | rosettaRuntime/X87.cpp:1644-1698 | The corrected widening, whose subnormal exponent is 16257 - k where line 1679 wraps it in a `uint8_t`; the source's widening is Widen32.FromFloat32AsWritten. The widening keeps the float's sign in bit 15 of the exponent word. |
| Widen32.WidenSubnormal32 | rosettaRuntime/X87.cpp:1671-1680 | The normalised subnormal keeps its sign bit apart from the biased exponent. |
| Widen32.FromFloat32AsWritten | rosettaRuntime/X87.cpp:1644-1698 | The source's widening equals the corrected one on every input that is not subnormal. |
| Widen32.NormalizeScales23 | rosettaRuntime/X87.cpp:1674-1676 | Normalising a fraction multiplies it by 2^k, k being clz(f) - 8. |
| Widen32.FromFloat32Specials | rosettaRuntime/X87.cpp:1663-1688 | Zero, infinity and NaN widen with no flag, and their fields are moved up unchanged. |
| Widen32.FromFloat32SubnormalExact | rosettaRuntime/X87.cpp:1671-1680 | The corrected widening of a subnormal is normalised and denotes the same number f * 2^-149. |
| Widen32.NormalRoundTrip32 | rosettaRuntime/X87.cpp:1644-1698 | Widening a normal float and narrowing it with the binary32 conversion gives the same 32 bits and no flag. |
| Widen32.SpecialRoundTrip32 | rosettaRuntime/X87.cpp:1682-1688 | Zero and infinity survive the round trip. A NaN comes back as the quiet NaN of its sign with invalid operation. |
| Widen32.AsWrittenExponentOffBy256 | rosettaRuntime/X87.cpp:1657-1680 | A subnormal with bit 22 set widens correctly as written. Every other subnormal gets the right mantissa under an exponent 256 too large. |
| Widen32.AsWrittenScalesUp | rosettaRuntime/X87.cpp:1657-1680 | 0x00000001 (2^-149) widens as written to 2^107 and narrows back to 0x75000000. The corrected widening narrows back to 0x00000001. |
| Bcd.Nibble | rosettaRuntime/X87.cpp:267-276 | Each digit read is a nibble, below 16. |
| Bcd.PartialBound | rosettaRuntime/X87.cpp:267-276 | Even all-15 nibbles keep the sum below 2^64: nine times the partial sum is at most 15(10^n - 1). |
| Bcd.NoWrap | rosettaRuntime/X87.cpp:264-276 | No partial sum or multiplier of the loop reaches 2^64. |
| Bcd.Accumulate | rosettaRuntime/X87.cpp:264-276 | The uint64_t loop computes the sum of nibble k times 10^k over the nineteen digits, and no step wraps. |
| Bcd.BcdValue | rosettaRuntime/X87.cpp:278-284 | The decoded double is negative exactly when bit 7 of byte 9 is set, zero exactly when the magnitude is 0, and exact below 2^53. |
| Bcd.Bcd2Double | rosettaRuntime/X87.cpp:262-285 | BCD2Double returns the signed converted magnitude. |
| Bcd.PackedDigits | rosettaRuntime/X87.cpp:347-363 | Nibble k of the packed bytes is decimal digit k of the integer, and the sign bit is clear. |
| Bcd.PackDigits | rosettaRuntime/X87.cpp:347-360 | The source's nine `% 10`, `/ 10` rounds and the final `% 10` produce the packed digits. |
| Bcd.DecodePacked | rosettaRuntime/X87.cpp:262-285 | Decoding the packed digits of n gives n mod 10^19, and n itself below 10^19. |
| Bcd.IntegerPart | rosettaRuntime/X87.cpp:332-335 | `trunc(fabs(x))` is 0 for zero and the floor of the magnitude otherwise. |
| Bcd.EncodeBcd | rosettaRuntime/X87.cpp:321-364 | The sign bit of the result is signbit(x) in every branch. |
| Bcd.SignKeepsDigits | rosettaRuntime/X87.cpp:327-363 | Setting the sign bit disturbs no digit. |
| Bcd.EncodeBcdMagnitude | rosettaRuntime/X87.cpp:324-364 | NaN and infinity encode magnitude 0. An integer part above the threshold saturates to 10^19 - 1, and any other integer part is stored exactly. |
| Bcd.StoreThenLoad | rosettaRuntime/X87.cpp:262-364 | fbstp then fbld of a finite value with integer part at most 10^18 and below 2^53 gives its truncation toward zero, with its sign. |
| Bcd.RepackValid | rosettaRuntime/X87.cpp:347-363 | Valid packed BCD is rebuilt byte for byte from its magnitude and sign. |
| Bcd.LoadThenStore | rosettaRuntime/X87.cpp:262-364 | Valid packed BCD below 2^53 decoded and encoded again is the same ten bytes. |
| ByteOrder.JoinSplit | rosettaRuntime/X87.cpp:288-304 | Splitting the two words into fbld's ten bytes and joining them again gives the low word and the low 16 bits of the high word. |

## Left out

- The forwarding trampolines, `init_library` and `x87_ffree` are left out. They are tail jumps into code that is not part of this model.
- SIMDGuard register saving, logging, the loader and the process-injection code are left out. They have no effect on the modelled state.
- IEEE arithmetic results and the libm kernels (`fmod`, `remquo`, `ilogb`, the host's double-to-float conversion) are not modelled. They are parameters, and only what the handlers do around them is modelled.
- The handlers outside the modelled core are not modelled: f2xm1, fabs, fchs, fcos, fsin, fsincos, fsqrt, fpatan, fptan, frndint, fxtract, fyl2x and fyl2xp1. Each is a libm call followed by a setSt or a push.
- The FP80-slot build (`X87_CONVERT_TO_FP80`) is not modelled. The double-slot build is, and the 80-bit codecs are modelled standalone.
- The layout `static_assert`s of the packed structs are not modelled.
- fbstp's 16-byte read of its 10-byte buffer is undefined behaviour. Only the ten defined bytes are modelled: the low word and the low 16 bits of the high word.
- Stores.RoundBy: `std::nearbyint` is modelled under the default round-to-nearest environment. The host's current rounding mode is not modelled.
- Stores.Fist: for 64 bits, definedness is stated as "the rounding fits". The model does not go on to prove that every non-NaN double passes: that no double below 2^63 rounds up out of range is not proved. The 16- and 32-bit cases are stated as "not a NaN".
- Stores.Fst32: the float narrowing is the host's conversion and is a parameter. The round trip is stated for a narrowing that keeps single-precision values.
- Loads.FldConstant: the constants are single-precision literals. The model holds their exact single-precision values, not the full-precision constants real hardware loads.
- Remainder.Fprem, Remainder.Fprem1: fmod, remquo and ilogb are parameters. std::trunc is exact, so it is folded into the cast of the quotient.
- Float80.FromFloat64SubnormalExact, Widen32.FromFloat32SubnormalExact: these prove the corrected widening exact. The subnormal round trip through narrowing and back is not proved.
- ByteOrder.JoinSplit: only split-then-join is proved. Join-then-split follows from it byte by byte and is not stated separately.

## Findings

| source | as written | input that shows it | evidently intended | confidence | as-written member | corrected member |
|---|---|---|---|---|---|---|
| rosettaRuntime/X87State.h:186-192 | `mantissa <<= shift + 1` normalises a subnormal double one place too far. The first fraction bit is lost and the integer bit is forced back on. | 0x000C000000000000 (1.5 * 2^-1023) widens to 1.0 * 2^-1023 | shift by `shift`, keeping the value exactly | not executed | Float80.AsWrittenLosesHalf | Float80.FromFloat64SubnormalExact |
| rosettaRuntime/X87State.h:101-143 | Below the binary32 subnormal range, the signed zero assigned to the result is overwritten by the rounding tail, which packs the negative int32 exponent into the sign and exponent bits. | extended 2^-151 (biased exponent 0x3F68) narrows to 0xF4000000, a negative number | a signed zero with underflow and precision | not executed | Float32.AsWrittenFlipsSign | Float32.ToFloat32KeepsSign |
| rosettaRuntime/X87.cpp:1657 | `uint8_t exp = 1 - leading_zeros` wraps for every subnormal float needing more than one shift, so the exponent is 256 too large. | float 0x00000001 (2^-149) is stored as 2^107 | an `int` exponent, giving 2^-149 | not executed | Widen32.AsWrittenScalesUp | Widen32.FromFloat32SubnormalExact |
| rosettaRuntime/X87.cpp:922 | `value >= 2147483647.0` treats INT32_MAX, which fits, as out of range. | ST(0) = 2147483647.0 stores INT32_MIN with C1 set | `>` as in the 16-bit store, storing 2147483647 | not executed | Stores.AsWrittenRejectsInt32Max | Stores.FistStoresIntegers |
| rosettaRuntime/X87.cpp:1511-1513 | The biased exponent `scale + 1023` is shifted into the double unchecked, so a scale outside the field's range reaches the sign bit. | ST(1) = 1025 gives factor -0 (so 1.0 scales to -0); ST(1) = -1024 gives factor -infinity | 2^scale, overflowing to +infinity and underflowing to +0 | not executed | Scale.OverflowingScaleFlipsSign | Scale.FactorIsPowerOfTwo |
