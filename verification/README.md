# Verified core of the C++ standard library's number printing, atomic waits and node handles

This project models three parts of the Microsoft C++ standard library and proves what they are for.

**Ryu printing (`stl/inc/xcharconv_ryu.h`).** The conversions behind `to_chars` for `float` and `double`: multi-word arithmetic with explicit carries, division by reciprocal multiplication, the flags and the digit removal that find a shortest decimal, the long division that prints large floats, the printers with a given precision, the decimal carry that rounds in place, and the layout of fixed and scientific notation. Integers are mathematical; every 32-bit and 64-bit wrap-around is written out (`Low32`, `Low64`). Buffers are `array<char>` that the printers write to in place, and pointers are positions in them. A number is a significand `m` and an exponent `e2`; `FloorAt(m, e2, r)` and `NearestAt(m, e2, r)` are `m * 2^e2 * 10^r` cut off and rounded half to even. `FixedText(n, p)` is the text of `n / 10^p` with `p` digits behind the point, and `Splice(t, pos, s)` is the text `t` with `s` written over it from `pos` on. `AcceptedAt(i, n, k)` says that `n * 10^k` lies in the rounding interval `i`, for any integer `k`, and `RoundsTo(f, n, k, m, e2)` that `m * 2^e2` is the number of the format nearest to `n * 10^k`, ties going to even significands.

**Atomic wait and notify (`stl/src/atomic_wait.cpp`).** The fallback built on locks and condition variables is a transition system: any number of threads wait, store and notify, one atomic action at a time, with spurious wakes and time-outs. The intrusive list of a wait table entry is a heap structure of its own. A second transition system covers the choice of the API level.

**Node handles (`stl/inc/xnode_handle.h`).** A class with the pointer and the raw allocator storage, and the set of all handles, nodes and deallocations as a state that operations change.

Main results, by module:

| module | result |
|---|---|
| `Words`, `MulShift`, `MulShiftAll` | the reciprocal divisions are division; both compilations of `__mulShift_mod1e9` are `floor(m * mul / 2^j) mod 10^9`; both compilations of `__mulShiftAll` agree if and only if no carry is lost at line 1685, which for the operands `__d2d` passes is a condition on the table entry alone |
| `Shortest`, `Ryu`, `Nearest`, `Scales`, `ToDecimal` | `__d2d` and `__f2d`, given the floors of Step 3, return an accepted decimal with the fewest digits, and the nearest of all of those, whatever their exponents, for every finite number; the flags of Step 3 are not always exact, and never matter where they are not |
| `Reading` | the decimals that round to a number are exactly those its rounding interval accepts |
| `ExactFixed`, `ShortestPrinting`, `Adjustment`, `DoubleAdjustment` | zero-filled output is chosen if and only if it is exact, and the length computed in advance, with either adjustment table, is the length printed |
| `Buffered` | what `__f2s_buffered_n` and `__d2s_buffered_n` print is in the notation the format asks for and reads back as the number in every format, no decimal that does has fewer digits or is nearer with as few, and integers in fixed notation are printed exactly |
| `Digits`, `Carry`, `FixedNotation`, `ScientificNotation` | the digit printers and the in-place rounding pass, as functions on the text |
| `LargeInteger` | large floats are printed exactly |
| `Rounding`, `Blocks`, `FixedPrecision`, `ScientificPrecision` | printing with a precision rounds the exact value half to even, for every finite double and every precision, and the text reads back as the rounded value |
| `ToChars`, `Notation` | both notations read back as `n * 10^k`; without a format the shorter one is chosen; reading and printing again gives back every text in one of the two notations |
| `WaitProtocol`, `WaitList` | no wake is lost; each list is exactly its waiters in order of arrival, and the heap ring follows it |
| `WaitOutcome` | a wait returns false exactly if it timed out, and true only with a reason |
| `WaitNotify` | whom notify_one and notify_all wake, exactly |
| `WaitProgress` | no deadlock; locks are given back; a sleeper can always wake, and leaves once the value has changed |
| `ApiLevel` | the level never decreases, forcing it forces it, and exactly when a level can still change |
| `NodeHandle`, `NodeProgram` | every node is owned by one handle, released, or freed once, in every sequence of operations |

Where the code and its documentation disagree, the model follows the code: `stl/inc/xatomic_wait.h:33-36` says that an API level, once set, can no longer be changed. A detection that is in flight stores its level without comparing (`stl/src/atomic_wait.cpp:157`). `ApiLevel.FinalIff` states exactly when the promise holds and `ApiLevel.ForcedLevelChanges` gives a run that breaks it.

A notify_one need not wake anybody although somebody sleeps on its address: it stops at the first context on the address (`stl/src/atomic_wait.cpp:269-275`), which may belong to a thread that has been signalled already or whose time is up. `WaitNotify.NotifyOneWakes` states exactly when it wakes a thread, and `WaitProgress.NotifyOneCanBeSpent` gives a run in which it does not.

Three places where the code is right for a reason it does not show:

- The carry test at `stl/inc/xcharconv_ryu.h:1685` misses a carry when the middle word is all ones and a carry comes in. `MulShiftAll.PassedAgree` states that, for the only mantissa with a halved gap, this happens exactly for entries whose bits 10 to 74 are all set. It is a latent limit of the function and not a fault that can be reached: `MulShiftAll.LostCarryExample` gives a normalised entry of that kind, and the tables, which are not part of this model, hold none.
- The flags of Step 3 are not always exact. The divisibility tests at lines 1763 and 1082 stop at 5^21 and 5^9, where exact multiples still exist; they look at one of the three bounds even where no power of ten is taken out and all three are exact; and line 1805 tests for one power of two less than was taken out. `ToDecimal.FlagsAreHarmless` and `ToDecimal.FinerIsNear` state that Step 4 returns the same decimal all the same.
- `__f2d` looks at one digit beyond its scale only where no digit may be removed later (lines 1074 and 1102). `ToDecimal.DigitGoes` states that one is removed everywhere else, and `ToDecimal.FloatFloorsFit` that the floor it looks at fits into 32 bits.

## Model

| member | source | states |
|---|---|---|
| Words.Umul128Exact | stl/inc/xcharconv_ryu.h:158-187 | the four-product multiplication returns the whole 128-bit product, no column sum overflowing |
| Words.Umulh | stl/inc/xcharconv_ryu.h:207-214 | its result is the upper half of the true product |
| Words.Reciprocal | stl/inc/xcharconv_ryu.h:216-226 | multiplying by `m` and dropping `power` divides by `d` whenever the excess of `m * d` over `power`, times `x`, stays below `power` |
| Words.Div5 | stl/inc/xcharconv_ryu.h:228-230 | true division for every 64-bit operand |
| Words.Div10 | stl/inc/xcharconv_ryu.h:232-234 | true division for every 64-bit operand |
| Words.Div100 | stl/inc/xcharconv_ryu.h:236-238 | true division for every 64-bit operand |
| Words.Div1e8 | stl/inc/xcharconv_ryu.h:240-242 | true division for every 64-bit operand |
| Words.Div1e9 | stl/inc/xcharconv_ryu.h:244-246 | true division for every 64-bit operand |
| Words.Mod1e9 | stl/inc/xcharconv_ryu.h:248-259 | the remainder computed from 32-bit truncations is the true remainder |
| Words.ModBy | stl/inc/xcharconv_ryu.h:1823-1825 | the remainder computed from a quotient and 32-bit truncations is the true remainder |
| Words.Umul256Hi128Lo64Exact | stl/inc/xcharconv_ryu.h:326-343 | the word at bit 128 of the 256-bit product, carries included |
| Words.Uint128Mod1e9Exact | stl/inc/xcharconv_ryu.h:345-354 | reciprocal multiplication gives the remainder of every 128-bit number |
| MulShift.High128Exact | stl/inc/xcharconv_ryu.h:357-371 | the upper 128 bits of a word times three words, both carries included |
| MulShift.MulShiftMod1e9X64Exact | stl/inc/xcharconv_ryu.h:357-378 | `floor(m * mul / 2^j) mod 10^9` for every multiplier and every `j` from 128 to 180 |
| MulShift.MulShiftMod1e9PortableExact | stl/inc/xcharconv_ryu.h:357-390 | the staged 32-bit reductions give the same value |
| MulShift.MulShiftMod1e9Agree | stl/inc/xcharconv_ryu.h:374-389 | the two compilations return the same value |
| MulShift.ShiftRight128 | stl/inc/xcharconv_ryu.h:189-195 | the low word of the shifted 128-bit value |
| MulShift.ShiftRight128Narrow | stl/inc/xcharconv_ryu.h:196-201 | dropping the low half first makes no difference from a distance of 32 on |
| MulShift.MulShiftX64Exact | stl/inc/xcharconv_ryu.h:1640-1651 | the low word of the true product, shifted |
| MulShiftAll.SharedProductExact | stl/inc/xcharconv_ryu.h:1664-1670 | three words hold the true product |
| MulShiftAll.AddEntryExact | stl/inc/xcharconv_ryu.h:1672-1674 | adding the table entry carries exactly |
| MulShiftAll.SubtractEntryExact | stl/inc/xcharconv_ryu.h:1678-1680 | subtracting the table entry borrows exactly |
| MulShiftAll.DoubleTripleExact | stl/inc/xcharconv_ryu.h:1683-1685 | doubling is exact but for one carry, lost exactly when the middle word is all ones and a carry comes in |
| MulShiftAll.NearWrapIsLostCarry | stl/inc/xcharconv_ryu.h:1683-1685 | the carry is lost exactly when the product lies just below a multiple of 2^128 |
| MulShiftAll.MulShiftAllAgree | stl/inc/xcharconv_ryu.h:1653-1693 | one shared product gives the same three bounds as three multiplications if and only if the lower gap is not halved or the product is not just below a multiple of 2^128 |
| MulShiftAll.NearWrapIsLowOnes | stl/inc/xcharconv_ryu.h:1683-1685 | at the mantissa of a power of two, the only one with a halved gap, the carry is lost exactly when bits 10 to 74 of the entry are all set |
| MulShiftAll.PassedAgree | stl/inc/xcharconv_ryu.h:1653-1693 | for normalised entries and the mantissas `__d2d` passes, the two compilations agree if and only if the lower gap is not halved or those bits of the entry are not all set |
| MulShiftAll.LostCarryExample | stl/inc/xcharconv_ryu.h:1683-1689 | a normalised entry for which the two compilations would differ at that mantissa |
| Shortest.AcceptedIff | stl/inc/xcharconv_ryu.h:1738-1748 | which multiples of a power of ten lie in the rounding interval, in terms of the floors and flags of Step 3 |
| Shortest.GeneralBranch | stl/inc/xcharconv_ryu.h:1814-1856 | terminates with an accepted decimal; no multiple of the next power of ten is accepted; nearest among the multiples of its own, ties to even; also from flags that are off where it makes no difference, and from a digit removed ahead |
| Shortest.CommonBranch | stl/inc/xcharconv_ryu.h:1857-1891 | the same for the branch that first strips two digits |
| Shortest.FloatCommonBranch | stl/inc/xcharconv_ryu.h:1156-1168 | the same for the float branch that strips one digit at a time |
| Shortest.FinishedNear | stl/inc/xcharconv_ryu.h:1814-1892 | a state that differs from the exact one only in bounds and flags that do not matter is rounded to the same decimal |
| Shortest.Step4 | stl/inc/xcharconv_ryu.h:1809-1892 | the same for Step 4 with its choice of branch |
| Shortest.FloatStep4 | stl/inc/xcharconv_ryu.h:1122-1169 | the same for Step 4 of the float conversion |
| Shortest.CompareBranches | stl/inc/xcharconv_ryu.h:1814-1891 | on inputs without exact bounds both branches return the same digits and the same count |
| Shortest.RoundUpAccepted | stl/inc/xcharconv_ryu.h:1854-1855 | rounding up never leaves the interval |
| Shortest.ShortestNearestUnique | stl/inc/xcharconv_ryu.h:1809-1892 | the specification of Step 4 has one solution |
| Shortest.NoShorterAt | stl/inc/xcharconv_ryu.h:1809-1811 | if a multiple of 10^k is accepted and none of 10^(k + 1) is, no accepted decimal with any exponent, larger or smaller, has fewer digits |
| Shortest.NoShorterDecimal | stl/inc/xcharconv_ryu.h:1809-1811 | no accepted decimal with any exponent, finer scales included, has fewer digits than the output |
| Ryu.Step4IsRyuOutput | stl/inc/xcharconv_ryu.h:1893-1898 | at every decimal scale, also below one, the result of Step 4 is an accepted decimal of the number with no accepted multiple of the next power of ten, next to the number, and nearest among the multiples of its power of ten if a digit was removed |
| Ryu.ShortestOfAll | stl/inc/xcharconv_ryu.h:1809-1811 | no accepted decimal with any exponent has fewer digits than Ryu's |
| Ryu.DoubleFits | stl/inc/xcharconv_ryu.h:1697-1702 | 17 digits are enough for every double, and its decimal exponent stays within the adjustment table and three digits |
| Ryu.FloatFits | stl/inc/xcharconv_ryu.h:69-74 | 9 digits are enough for every float, and its decimal exponent stays within the adjustment table and two digits |
| Nearest.EveryNumberNearItsPower | stl/inc/xcharconv_ryu.h:1738-1748 | where the interval of a float or double holds a power of ten above the number and reaches down to nine tenths of it, the number is more than 19/20 of the power, so nearer to it than to anything in that part of the interval |
| Nearest.RyuIsNearest | stl/inc/xcharconv_ryu.h:1851-1856 | a shortest decimal that is nearest among the multiples of its power of ten is nearest among all accepted decimals with no more digits, whatever their exponents, and no other is as near but for a tie that goes to even |
| Reading.AcceptedIffRoundsTo | stl/inc/xcharconv_ryu.h:1738-1748 | a decimal lies in the rounding interval of a number if and only if that number is nearest to it among all numbers of the format, ties going to even, at halved gaps and for subnormals too |
| Scales.DoubleIsFine | stl/inc/xcharconv_ryu.h:1756-1758 | the scale of `__d2d` leaves at least five units to a quarter of the gap, or takes out no power of ten |
| Scales.FloatIsFine | stl/inc/xcharconv_ryu.h:1067-1068 | the scale of `__f2d` leaves at least one unit to a quarter of the gap |
| ToDecimal.TooManyFives | stl/inc/xcharconv_ryu.h:1763-1766 | beyond 5^22 no bound or value that would matter is divisible by one more five |
| ToDecimal.FlagsAreHarmless | stl/inc/xcharconv_ryu.h:1763-1806 | the flags and the upper bound of Step 3 differ from the exact ones only where Step 4 does not notice, for every significand and exponent |
| ToDecimal.FinerIsNear | stl/inc/xcharconv_ryu.h:1074-1119 | the same for `__f2d` when the digit behind the scale was computed ahead |
| ToDecimal.Step3 | stl/inc/xcharconv_ryu.h:1763-1806 | computes those flags with the tests on powers of five and two |
| ToDecimal.DigitGoes | stl/inc/xcharconv_ryu.h:1074-1074 | where the digit ahead is not computed, Step 4 removes a digit |
| ToDecimal.D2d | stl/inc/xcharconv_ryu.h:1728-1898 | given the floors of Step 3, returns an accepted decimal with the fewest digits, nearest among all accepted decimals with no more digits, for every finite double |
| ToDecimal.F2d | stl/inc/xcharconv_ryu.h:1039-1176 | the same for every finite float |
| ToDecimal.DoubleFloorsFit | stl/inc/xcharconv_ryu.h:1607-1613 | the floors of `__d2d` fit into 64 bits |
| ToDecimal.FloatFloorsFit | stl/inc/xcharconv_ryu.h:1074-1081 | the floors of `__f2d` fit into 32 bits, the one for the digit ahead included |
| ExactFixed.ExactIffFits | stl/inc/xcharconv_ryu.h:2000-2020 | an accepted decimal equals the number if and only if its odd part times the power of five fits the significand, also where the lower gap is halved |
| ExactFixed.ThresholdTest | stl/inc/xcharconv_ryu.h:2022-2039 | comparing with the table entry decides whether that product fits |
| ExactFixed.CanUseRyuFloatExact | stl/inc/xcharconv_ryu.h:1389-1423 | for float, zero-filling is chosen if and only if it prints the number itself |
| ExactFixed.CanUseRyuDoubleExact | stl/inc/xcharconv_ryu.h:1993-2040 | for double, zero-filling is chosen if and only if it prints the number itself |
| Digits.DecimalLength9 | stl/inc/xcharconv_ryu.h:69-84 | the number of decimal digits |
| Digits.DecimalLength17 | stl/inc/xcharconv_ryu.h:1697-1720 | the number of decimal digits |
| Digits.TablePair | stl/inc/xcharconv_ryu_tables.h:66-77 | entries 2k and 2k + 1 of the table, as the source writes it out, are the last two digits of any number with that remainder by 100 |
| Digits.DecimalValue | stl/inc/xcharconv_ryu.h:392-419 | a decimal text reads back as its number |
| Digits.AppendNDigits | stl/inc/xcharconv_ryu.h:392-419 | writes the decimal form and nothing else |
| Digits.AppendCDigits | stl/inc/xcharconv_ryu.h:453-464 | writes exactly the last `count` digits |
| Digits.AppendNineDigits | stl/inc/xcharconv_ryu.h:466-485 | writes nine digits, padded with zeros |
| Digits.FillZeros | stl/inc/xcharconv_ryu.h:684-684 | writes zeros and nothing else |
| Digits.DecimalAppend | stl/inc/xcharconv_ryu.h:1288-1297 | nine-digit blocks behind a leading number make up the decimal form of the whole |
| ScientificNotation.AppendDDigits | stl/inc/xcharconv_ryu.h:421-451 | writes the digits with the point behind the first one |
| LargeInteger.Represent | stl/inc/xcharconv_ryu.h:1209-1222 | the four elements hold `m * 2^e`, and the top one is not zero |
| LargeInteger.DividePass | stl/inc/xcharconv_ryu.h:1238-1260 | one pass divides the whole integer by 10^9 in place, returns the remainder, and shrinks it by at most one element |
| LargeInteger.DivideOut | stl/inc/xcharconv_ryu.h:1226-1277 | the division ends with at most four blocks that, with the first element, make up the integer |
| LargeInteger.BlocksLeft | stl/inc/xcharconv_ryu.h:1224-1227 | a 128-bit integer never fills a fifth block |
| LargeInteger.LargeIntegerToChars | stl/inc/xcharconv_ryu.h:1178-1300 | prints `m * 2^e` exactly; fails, leaving the buffer alone, exactly when it does not fit |
| Rounding.RoundHalfEvenIff | stl/inc/xcharconv_ryu.h:630-638 | rounding half to even is the one integer that is nearest, ties going to even |
| Rounding.ModeDecides | stl/inc/xcharconv_ryu.h:630-638 | one more digit and the trailing-zero test give mode 0, 1 or 2 exactly when the remainder is below, above or equal to one half |
| Rounding.Pow5Factor | stl/inc/xcharconv_ryu.h:289-302 | the exponent of five in the number |
| Rounding.MultipleOfPowerOf5 | stl/inc/xcharconv_ryu.h:304-308 | true if and only if the power of five divides |
| Rounding.EnoughTwosExact | stl/inc/xcharconv_ryu.h:634-636 | the bound of 60 changes nothing for the significand of a double |
| Rounding.TrailingZerosExact | stl/inc/xcharconv_ryu.h:842-849 | the tests on powers of two and five hold if and only if the scaled value is an integer |
| Rounding.ModeAt | stl/inc/xcharconv_ryu.h:837-851 | the mode computed from the next digit is the right one at every scale |
| Rounding.FloorDrop | stl/inc/xcharconv_ryu.h:824-834 | cutting off digits of a scaled value is scaling by less |
| Carry.BumpDigits | stl/inc/xcharconv_ryu.h:664-677 | the pass turns the digits of `n` into those of `n + 1`, and nines into zeros |
| Carry.CarryBack | stl/inc/xcharconv_ryu.h:649-679 | the pass over the buffer adds one through nines and the point, or leaves an even number alone in mode 2, and reports a carry out of the front exactly for nines |
| FixedNotation.FixedTextValue | stl/inc/xcharconv_ryu.h:573-578 | the digits of a fixed text read back as its number |
| FixedNotation.FixedTextPlaces | stl/inc/xcharconv_ryu.h:573-578 | a fixed text has exactly the given number of digits behind the point |
| FixedNotation.BumpFixedText | stl/inc/xcharconv_ryu.h:649-679 | bumping the text of `n` gives the text of `n + 1`, short of a leading one when all digits are nines |
| FixedNotation.PutOverflow | stl/inc/xcharconv_ryu.h:653-663 | the leading one, the moved point and the extra zero complete the text, if there is room for one more character |
| FixedNotation.RoundFixed | stl/inc/xcharconv_ryu.h:649-679 | the text of `n` becomes that of `n` rounded, or does not fit |
| Blocks.TablesExist | stl/inc/xcharconv_ryu.h:600-616 | the blocks the printers are given exist for every double |
| Blocks.KeptDigits | stl/inc/xcharconv_ryu.h:623-629 | what is left of a block, and the digit behind it, are digits of the exact value |
| Blocks.DropDigits | stl/inc/xcharconv_ryu.h:625-629 | the digits left and the last one dropped |
| FixedPrecision.WholePart | stl/inc/xcharconv_ryu.h:539-572 | prints the integer part without leading zeros, or fails exactly when it does not fit |
| FixedPrecision.FractionPart | stl/inc/xcharconv_ryu.h:579-648 | prints the digits behind the point of the exact value and returns the right rounding mode |
| FixedPrecision.PrintNonzero | stl/inc/xcharconv_ryu.h:539-688 | for a nonzero double, prints the exact value rounded half to even, and fails exactly when that text does not fit |
| FixedPrecision.D2fixedBufferedN | stl/inc/xcharconv_ryu.h:500-688 | the same for every finite double and every precision; the text has the shape of fixed notation and reads back as the rounded value |
| ScientificNotation.BumpSignificand | stl/inc/xcharconv_ryu.h:876-898 | bumping the digits of `n` gives those of `n + 1`, or of a tenth of it when all are nines |
| ScientificNotation.RoundScientific | stl/inc/xcharconv_ryu.h:876-898 | the digits of `n` become those of `n` rounded, the exponent taking the carry: digits and exponent stand for the rounded value |
| ScientificNotation.PutExponent | stl/inc/xcharconv_ryu.h:900-928 | prints the sign and two or three digits of exponent, or fails exactly when they do not fit |
| ScientificPrecision.PrintBlock | stl/inc/xcharconv_ryu.h:746-777 | after each block the digits printed are those of the value so far, or more digits are at hand than wanted |
| ScientificPrecision.PrintDigits | stl/inc/xcharconv_ryu.h:730-875 | prints the leading digits of the exact value, with its decimal exponent and the right rounding mode |
| ScientificPrecision.RoundingMode | stl/inc/xcharconv_ryu.h:835-851 | the mode from the next digit and the tests on powers of two and five |
| ScientificPrecision.ExponentExists | stl/inc/xcharconv_ryu.h:757-759 | every nonzero double has a decimal exponent |
| ScientificPrecision.OneExponent | stl/inc/xcharconv_ryu.h:800-802 | and only one |
| ScientificPrecision.ExponentIsShort | stl/inc/xcharconv_ryu.h:909-925 | the exponent of a double has at most three digits |
| ScientificPrecision.ScientificTextReadsRounded | stl/inc/xcharconv_ryu.h:876-928 | the text has the asked number of digits and reads back as the value rounded half to even at the last of them, also when the rounding carries into the exponent |
| ScientificPrecision.D2expBufferedN | stl/inc/xcharconv_ryu.h:690-928 | prints the exact value rounded half to even to the given number of digits, with the exponent after rounding, and fails exactly when that text does not fit; the text has the shape of scientific notation with that many digits and reads back as the rounded value, and for zero as zero |
| ToChars.ShorterIsChosen | stl/inc/xcharconv_ryu.h:1908-1930 | without a format, fixed notation is chosen if and only if it is no longer than scientific notation, for every exponent |
| ToChars.GeneralIsFixedInRange | stl/inc/xcharconv_ryu.h:1333-1344 | the general format is fixed notation exactly for values from 10^-4 up to 10^6 |
| ToChars.FixedLengthIs | stl/inc/xcharconv_ryu.h:1962-1986 | the length formula is the length of the fixed text |
| ToChars.ScientificLengthIs | stl/inc/xcharconv_ryu.h:2124-2125 | the length formula is the length of the scientific text |
| ToChars.FixedReadsBack | stl/inc/xcharconv_ryu.h:1346-1483 | fixed notation reads back as `n * 10^k` |
| ToChars.ScientificReadsBack | stl/inc/xcharconv_ryu.h:1485-1543 | scientific notation reads back as `n * 10^k` |
| ToChars.ReadFixed | stl/inc/xcharconv_ryu.h:1346-1483 | a reader that splits a text at its exponent and its point reads every fixed text as `n * 10^k` |
| ToChars.ReadScientific | stl/inc/xcharconv_ryu.h:1485-1543 | and every scientific one |
| Notation.FixedTextShape | stl/inc/xcharconv_ryu.h:1346-1483 | a fixed text is digits with no zero in front but a single one, and the wanted number of digits behind a point |
| Notation.ScientificTextShape | stl/inc/xcharconv_ryu.h:1485-1543 | a scientific text is one digit, not zero unless the number is, the others behind a point, and a signed exponent of two digits, or three where two are not enough |
| Notation.FixedTextAgain | stl/inc/xcharconv_ryu.h:1346-1483 | every text of the first shape is what is printed for the decimal it reads as |
| Notation.ScientificTextAgain | stl/inc/xcharconv_ryu.h:1485-1543 | and so is every text of the second shape with a digit other than zero in front |
| Notation.ChoiceIsWanted | stl/inc/xcharconv_ryu.h:1908-1942 | the notation chosen is the one the format names, the shorter one without a format, and by value from 10^-4 up to 10^6 for the general one |
| ToChars.PrintLowEight | stl/inc/xcharconv_ryu.h:2061-2079 | the eight low digits of a number beyond 32 bits |
| ToChars.AppendDigits | stl/inc/xcharconv_ryu.h:2057-2103 | writes the decimal form of up to 64 bits |
| ToChars.AppendSignificand | stl/inc/xcharconv_ryu.h:2130-2192 | writes the digits with the point behind the first one, if there is more than one |
| ToChars.MovePoint | stl/inc/xcharconv_ryu.h:1471-1474 | moving the whole digits makes room for the point |
| ToChars.PutFixed | stl/inc/xcharconv_ryu.h:1434-1480 | all four layouts are the fixed text of `n * 10^k`, within the computed length |
| ToChars.PutScientific | stl/inc/xcharconv_ryu.h:2124-2213 | the layout is the scientific text of `n * 10^k`, within the computed length |
| ShortestPrinting.WholeIsNormal | stl/inc/xcharconv_ryu.h:1425-1428 | only normal numbers have a shortest decimal without a fraction, so that restoring the implicit bit is right |
| ShortestPrinting.ExactLength | stl/inc/xcharconv_ryu.h:1967-1982 | the number has as many digits as `n * 10^k`, except that a power of ten can stand for a number with one digit less |
| ShortestPrinting.IntegerBehind | stl/inc/xcharconv_ryu.h:1185-1190 | a number printed without a fraction is an integer, and equals `n * 10^k` when its exponent is not positive |
| ShortestPrinting.PrintedLength | stl/inc/xcharconv_ryu.h:1964-1986 | the adjusted length is the length of what is printed |
| ShortestPrinting.PrintedInNotation | stl/inc/xcharconv_ryu.h:1302-1382 | what is printed has an exponent exactly if the format asks for one for `n * 10^k`, and the shape of that notation |
| ShortestPrinting.FloatToChars | stl/inc/xcharconv_ryu.h:1302-1544 | prints `n * 10^k`, or the number itself where that would not be exact, in the notation the format asks for; fails, leaving the buffer alone, exactly when the text does not fit |
| ShortestPrinting.DoubleToChars | stl/inc/xcharconv_ryu.h:1900-2214 | the same for double |
| Adjustment.BelowPower | stl/inc/xcharconv_ryu.h:1369-1375 | the number that prints as a power of ten lies below it exactly if the power is less than half a gap above the number below, or half a gap above an even one |
| Adjustment.FloatAdjusts | stl/inc/xcharconv_ryu.h:1373-1375 | every entry of the float table is right for every float that prints as that power of ten |
| DoubleAdjustment.Entry | stl/inc/xcharconv_ryu.h:1967-1978 | 128 bits of a power of ten decide on which side of it its nearest double lies |
| DoubleAdjustment.DoubleAdjusts | stl/inc/xcharconv_ryu.h:1971-1979 | every entry of the double table is right for every double that prints as that power of ten, the tie at 10^23 included |
| Buffered.SmallInteger | stl/inc/xcharconv_ryu.h:2216-2246 | recognises exactly the integers below 2^53 and strips their trailing zeros |
| Buffered.SmallIntegerShortens | stl/inc/xcharconv_ryu.h:2304-2318 | the stripped integer is a shortest decimal of the number and equal to it, as Ryu's would be |
| Buffered.RoundTrip | stl/inc/xcharconv_ryu.h:1546-1595 | in every format, the text printed for a finite number, read back, is a decimal that rounds to that number; it is the number itself or Ryu's decimal |
| Buffered.NothingShorter | stl/inc/xcharconv_ryu.h:1809-1811 | no decimal that rounds to the number has fewer digits than Ryu's |
| Buffered.NothingNearer | stl/inc/xcharconv_ryu.h:1851-1856 | no decimal that rounds to the number with as few digits is nearer to it |
| Buffered.ZeroInNotation | stl/inc/xcharconv_ryu.h:1553-1571 | zero is printed in scientific notation if that is the format, and as one digit otherwise |
| Buffered.BufferedInNotation | stl/inc/xcharconv_ryu.h:1546-1595 | every text, zero and the integers that need no Ryu included, is in the notation the format asks for |
| Buffered.F2sBufferedN | stl/inc/xcharconv_ryu.h:1546-1595 | the printer for float as a whole, given the floors of Step 3: its text, which is in the notation the format asks for and reads back as the float, shows the nearest of all shortest decimals or the exact integer; fails, leaving the buffer alone, exactly when the text does not fit |
| Buffered.D2sBufferedN | stl/inc/xcharconv_ryu.h:2248-2324 | the printer for double as a whole, given the floors of Step 3 and the blocks of nine digits: its text, which is in the notation the format asks for and reads back as the double, shows the nearest of all shortest decimals or the exact integer; fails exactly when the text does not fit, leaving the buffer alone unless it went straight into `__d2fixed_buffered_n`, which may leave a partial text between `first` and `last` |
| Buffered.IntegersPrintExactly | stl/inc/xcharconv_ryu.h:1183-1191 | in fixed notation every integer is printed exactly, for float and for double |
| WaitProtocol.BucketInTable | stl/src/atomic_wait.cpp:75-81 | every address hashes to one of the 256 entries |
| WaitProtocol.BucketIsBytes | stl/src/atomic_wait.cpp:75-81 | the entry is the exclusive or of the four low bytes of the address |
| WaitProtocol.StepKeepsInv | stl/src/atomic_wait.cpp:265-311 | every action of every thread keeps locks, lists and pending wakes consistent |
| WaitProtocol.RunKeepsInv | stl/src/atomic_wait.cpp:265-311 | so they are consistent in every state of every run |
| WaitProtocol.NoWakeIsLost | stl/src/atomic_wait.cpp:278-311 | a sleeping waiter without a wake still sees its comparand, unless a notify_all of its address has yet to reach it, or a store was made without one and no notify_all of the address has begun since |
| WaitProtocol.QuietMeansUnchanged | stl/src/atomic_wait.cpp:278-311 | once the notifications of an address are through, its sleepers see their comparands |
| WaitProtocol.MutualExclusion | stl/src/atomic_wait.cpp:47-61 | two threads never hold one bucket's lock |
| WaitProtocol.ListIsWaiters | stl/src/atomic_wait.cpp:29-41 | the list of a bucket is exactly the threads inside the wait function, in order of arrival |
| WaitProtocol.ScanVisitsLive | stl/src/atomic_wait.cpp:265-288 | a notifier stands on live contexts and signals only sleepers on its address |
| WaitProtocol.TimeoutsAreTimed | stl/src/atomic_wait.cpp:301-304 | only a timed wait times out |
| WaitProtocol.UntimedReturnsOnInequality | stl/src/atomic_wait.cpp:296-310 | an untimed wait leaves its loop only after seeing another value under the lock |
| WaitProtocol.UntimedReturnsTrue | stl/src/atomic_wait.cpp:290-311 | an untimed wait that returns, returns true, and saw another value under the lock before |
| WaitOutcome.FalseIffTimedOut | stl/src/atomic_wait.cpp:290-311 | over every run, a call returns false if and only if its sleep timed out, and then it was timed; it returns true because it saw another value under the lock or, if timed, because it was woken in time |
| WaitOutcome.LeavesForReason | stl/src/atomic_wait.cpp:296-309 | every way out of the loop, with its result, goes back to the state that decided it |
| WaitOutcome.OnlyStoresChange | stl/src/atomic_wait.cpp:297-299 | the value that the comparison under the lock reads changes only by a store to the address, which puts its own value there |
| WaitOutcome.UnannouncedStore | stl/src/atomic_wait.cpp:278-299 | an address counts as stored to without notice only if a store without a notify_all was made and no notify_all has begun since |
| WaitNotify.RunKeepsScans | stl/src/atomic_wait.cpp:265-288 | in every reachable state a notify_one has passed no context on its address, and a notify_all none whose thread may sleep on |
| WaitNotify.NotifyOneWakes | stl/src/atomic_wait.cpp:269-275 | a step of notify_one wakes a thread if and only if it ends the scan and the thread is asleep and the first in the list on the address |
| WaitNotify.NotifyOneReaches | stl/src/atomic_wait.cpp:265-276 | when notify_one ends, nobody in the list waits on the address, or the first who does will not sleep on |
| WaitNotify.NotifyAllReaches | stl/src/atomic_wait.cpp:278-288 | when notify_all ends, nobody who waits on the address will sleep on |
| WaitNotify.NotifierPath | stl/src/atomic_wait.cpp:265-288 | a notifier takes the lock, scans from the start with the address and the kind of its call, and unlocks |
| WaitNotify.OneToEnd | stl/src/atomic_wait.cpp:265-276 | a whole notify_one changes nothing but the first waiter on the address, if that one is asleep |
| WaitNotify.AllToEnd | stl/src/atomic_wait.cpp:278-288 | a whole notify_all wakes every sleeper on the address and changes nothing else |
| WaitProgress.NoDeadlock | stl/src/atomic_wait.cpp:265-311 | in every reachable state a thread inside a call can move, or somebody who holds a lock can |
| WaitProgress.LockIsReleased | stl/src/atomic_wait.cpp:47-61 | whoever holds a lock gives it back by finitely many steps of its own |
| WaitProgress.SleeperWakes | stl/src/atomic_wait.cpp:301-309 | a sleeper can wake in every reachable state, and once the lock is free goes to the check, or out with the result its wake decides |
| WaitProgress.ChangedMeansReturn | stl/src/atomic_wait.cpp:296-299 | with the lock free and another value in place, a sleeper's own steps lead to returning true with the lock free |
| WaitProgress.EqualMeansSleep | stl/src/atomic_wait.cpp:290-301 | with the lock free and the comparand in place, a call goes to sleep at the tail of the list with the lock free |
| WaitProgress.NotifyOneCanBeSpent | stl/src/atomic_wait.cpp:269-275 | a run in which notify_one stops at a thread whose time is up and the sleeper behind it sleeps on |
| WaitList.WaitTableEntry.constructor | stl/src/atomic_wait.cpp:66-71 | the list starts as the sentinel alone |
| WaitList.WaitTableEntry.Link | stl/src/atomic_wait.cpp:30-34 | the ring stays well formed with the new context at its tail |
| WaitList.WaitTableEntry.Unlink | stl/src/atomic_wait.cpp:36-41 | the ring stays well formed without the context, in the same order |
| WaitList.LinkStep | stl/src/atomic_wait.cpp:290-294 | linking a context in the ring is the link step of the protocol on the list of threads |
| WaitList.UnlinkStep | stl/src/atomic_wait.cpp:36-41 | unlinking it is the unlink step |
| WaitList.ListSteps | stl/src/atomic_wait.cpp:265-311 | no other step of the protocol changes a list |
| WaitList.NotifyOneStep | stl/src/atomic_wait.cpp:265-276 | notify_one on the ring is the protocol's scan from its start to its end |
| WaitList.NotifyAllStep | stl/src/atomic_wait.cpp:278-288 | and so is notify_all |
| WaitList.WaitTableEntry.NotifyAll | stl/src/atomic_wait.cpp:278-288 | exactly the waiters on the address are signalled |
| WaitList.WaitTableEntry.NotifyOne | stl/src/atomic_wait.cpp:265-276 | only the first waiter on the address is signalled |
| WaitList.RingWithout | stl/src/atomic_wait.cpp:36-41 | closing the gap around one element leaves a ring |
| ApiLevel.Step | stl/src/atomic_wait.cpp:119-168 | every action keeps the invariant, lowers no level and clears no pointer |
| ApiLevel.RunKeepsInv | stl/src/atomic_wait.cpp:119-168 | the invariant holds in every state of every run |
| ApiLevel.LevelNeverDecreases | stl/src/atomic_wait.cpp:119-168 | the level never decreases, and the three pointers are set whenever it says so |
| ApiLevel.ReturnedLevel | stl/src/atomic_wait.cpp:161-168 | a caller is told a settled level, and may use the pointers at the higher one |
| ApiLevel.ReturnedIsCurrent | stl/src/atomic_wait.cpp:161-168 | the level a caller is told is the one in place at that moment |
| ApiLevel.ForcingForces | stl/src/atomic_wait.cpp:119-128 | over every run, a call that forces gets past its exchange only with a level that is set, and never detects |
| ApiLevel.ForcedLevelIsLower | stl/src/atomic_wait.cpp:342-361 | while nobody has begun to detect, whoever comes back is told the lower level |
| ApiLevel.ForceAlone | stl/src/atomic_wait.cpp:342-361 | left to itself while the level is open, a call that forces sets the lower level and returns it |
| ApiLevel.FinalIff | stl/inc/xatomic_wait.h:33-37 | a level stays what it is in every continuation if and only if no detection that can raise it is in flight |
| ApiLevel.ForcedLevelChanges | stl/src/atomic_wait.cpp:342-361 | a run in which a forced and reported level changes afterwards |
| NodeHandle.Handle.constructor | stl/inc/xnode_handle.h:101-101 | an empty handle has no live allocator |
| NodeHandle.Handle.Make | stl/inc/xnode_handle.h:202-207 | a handle that holds the node and the allocator |
| NodeHandle.Handle.Move | stl/inc/xnode_handle.h:107-114 | node and allocator change hands, the source is empty |
| NodeHandle.Handle.Clear | stl/inc/xnode_handle.h:82-91 | the node is freed once through its own allocator and the handle is empty |
| NodeHandle.Handle.Assign | stl/inc/xnode_handle.h:116-145 | the old node is freed, the new one taken over, the source empty; a self-assignment frees and empties |
| NodeHandle.Handle.Release | stl/inc/xnode_handle.h:172-176 | hands out the node and ends the allocator's life |
| NodeHandle.Handle.Swap | stl/inc/xnode_handle.h:178-197 | exchanges nodes, and allocators if they propagate |
| NodeHandle.DoConserves | stl/inc/xnode_handle.h:79-208 | every operation keeps each node with one owner, released, or freed once |
| NodeHandle.DoMatches | stl/inc/xnode_handle.h:79-208 | nodes stay with their own allocator until unequal allocators are mixed without propagation |
| NodeHandle.MismatchIff | stl/inc/xnode_handle.h:116-197 | an operation puts a node into the hands of another allocator if and only if it mixes unequal allocators that do not propagate |
| NodeHandle.EveryRunConserves | stl/inc/xnode_handle.h:79-208 | both, over every sequence of operations |
| NodeHandle.NodeFate | stl/inc/xnode_handle.h:79-208 | from the empty start, every node made is owned by exactly one handle, released, or freed exactly once |
| NodeHandle.NothingLeaks | stl/inc/xnode_handle.h:82-105 | once all handles are gone, every node made was released or freed |
| NodeProgram.Program.Perform | stl/inc/xnode_handle.h:79-208 | one operation on handle objects is that operation on the state of all handles |
| NodeProgram.Program.Run | stl/inc/xnode_handle.h:79-208 | a sequence of operations on handle objects is that sequence on the state, and conserves nodes |

## Left out

- The contents of `xcharconv_ryu_tables.h` other than the digit table: the blocks of nine digits are parameters, and `Blocks.WholeBlocks` and `Blocks.FractionBlocks` say what they hold.
- That multiplying with a table entry and shifting yields exact floors: `ToDecimal.Floors` and `ToDecimal.FloatFloors` are what the conversions and printers are given.
- `__pow5bits`, `__indexForExponent` and `__lengthForIndex`: they only index the tables.
- The bit mask in `__multipleOfPowerOf2` is modelled as the remainder by the power of two, and shifts as multiplication and division.
- Decoding the bits of a floating-point number into fields, and the sign, infinities and NaNs that the callers handle.
- The comparison and rounding that `<charconv>` does around these functions, and the hexadecimal formats.
- Weak memory orderings, real time and the operating system's own wait functions: atomics are sequentially consistent, and wakes and time-outs may happen at any time.
- The 128-bit compare-exchange fallback, the dispatch between direct and indirect waits, and the deadline arithmetic of `atomic_wait.cpp`.
- Access to the element of a node handle through `key`, `mapped` and `value`, and the containers that make and take node handles.
- The rest of the library.
