# Verified models of the bundled JavaScript engine's hard parts

The Flutter plugin carries a small JavaScript engine and the Ajv validator. This
project models four pieces of their code in Dafny and proves what they are for.

* **Regular expressions** (`libregexp.c`). Patterns are trees; their meaning is
  the list of outcomes that section 22.2.2 of ECMA-262 prescribes, in order of
  preference. The emitter is a class whose buffer is appended to, inserted into,
  rotated and patched; the register pass works in place on an array; the engine
  is a class with captures, stack pointer, base pointer and undo pairs. The proof
  goes from the pattern semantics to instructions, from instructions to a machine
  that saves snapshots, from that machine to the engine with its undo log, and from
  instructions to bytes.
* **Float64 printing and reading** (`dtoa.c`). A limb array has the value
  `sum tab[i] * 2^(32 * i)`, and every loop over limbs is proved against that
  value. On top of that come correct rounding, the search for the number of digits,
  the exactness of the table of logarithms, a reader for texts with any number of
  digits, and the round trip of every float64 through its text.
* **Punycode, the schema cache key and dot segments** (`ajv.js`). Sections 6.1 to
  6.3 of RFC 3492, the stable serialisation against deep equality, and section
  5.2.4 of RFC 3986.
* **rqsort** (`cutils.c`). The quicksort with four zones, its stack of 50
  segments, the heapsort fallback and the insertion sort at the end.

`Regexp*.dfy` hold the first part; `RegexpText`, `RegexpLaws` and `RegexpExamples` say what
the pattern semantics means without its recursion. The second is in `Power`, `Limbs`, `UdivNorm`,
`Bignum`, `Rounding`, `SmallPowers`, `PowerScaling`, `ScaleAndRound`, `RoundToDouble`,
`NearestDoubles`, `DoubleBits` and `ReadingRange` (arithmetic and rounding), `DigitCounts`,
`RadixPowers`, `RadixLogarithm`, `FreeFormat`, `ShortestDigits`, `Capacity`, `RadixDigits`
and `NumberPrinter` (printing), `NumberScan`, `NumberValue` and `NumberReader` (reading),
`NumberTexts` and `NumberRoundTrip`. `Punycode*`, `Json*` and `DotSegments` hold the third, `Sorting`,
`HeapSort`, `Partition` and `Rqsort` the fourth. `dafny verify dfyconfig.toml` checks
them all.

## Model

| member | source | states |
|---|---|---|
| RegexpCapped.ProgramExact | linux/quickjs/upstream/libregexp.c:1845-2440 | For every pattern, subject and start, the engine run on the compiled program halts, and it ends with the leftmost match and the preferred captures of section 22.2.2 of ECMA-262, or with failure if there is none, where a loop without an upper bound that counts its passes stops after 2^31 - 1 of them. |
| RegexpCapped.FindSame | linux/quickjs/upstream/libregexp.c:2332-2357 | That is the match of the pattern itself unless some counting loop has a minimum that, together with the length of the subject, exceeds 2^31 - 1. |
| RegexpCapped.CounterExact | linux/quickjs/upstream/libregexp.c:2332-2357 | For subjects of a given length the counter is harmless to all atoms exactly if minimum and length together do not exceed 2^31 - 1. |
| RegexpCapped.LongLoopDiffers | linux/quickjs/upstream/libregexp.c:2332-2357 | On "aa" the pattern `(?:\|a){2147483646,}` matches two characters by the standard and one by the code. |
| RegexpLaws.FoundLeftmost | linux/quickjs/upstream/libregexp.c:2552-2561 | What is found is the preferred outcome at the leftmost code-point boundary from the start on that has one, or at the start alone if the pattern is sticky; nothing is found exactly if there is none. |
| RegexpLaws.GroupSpans | linux/quickjs/upstream/libregexp.c:2015-2024 | In each outcome of a group its capture is the stretch between where its body starts and where it ends, in either direction, and no other capture changes. |
| RegexpLaws.QuantOfTest | linux/quickjs/upstream/libregexp.c:2261-2370 | A quantifier over a character test has one outcome for each number of passes that its bounds and the run of accepted characters allow, from the most to the fewest if it is greedy and from the fewest to the most if it is lazy, forward and backward. |
| RegexpLaws.RunExists | linux/quickjs/upstream/libregexp.c:2261-2370 | From every position there is such a run. |
| RegexpLaws.LastPass | linux/quickjs/upstream/libregexp.c:2261-2370 | Every outcome of a loop that made a pass is an outcome of its atom from a state in which the groups of the atom are undefined. |
| RegexpText.RefForward | linux/quickjs/upstream/libregexp.c:3194-3208 | A back reference matches forward up to q if and only if the same units stand there as in the group, and q is not between the halves of a pair. |
| RegexpText.RefBackward | linux/quickjs/upstream/libregexp.c:3209-3222 | In a lookbehind it matches down to q if and only if the same units end where it starts. |
| RegexpText.AnyBoundary | linux/quickjs/upstream/libregexp.c:2621-2702 | Without UTF-16 mode every position up to the end is a boundary, so that nothing but the units matters there. |
| RegexpText.BackRefMeans | linux/quickjs/upstream/libregexp.c:3172-3228 | The outcomes of a back reference: the text of the first group of its list that took part in the match and nothing else, or the empty text if none did; captures stay. |
| RegexpText.HoldsByUnits | linux/quickjs/upstream/libregexp.c:2985-3171 | Line and word assertions hold exactly if the units beside the position say so: half a pair neither ends a line nor belongs to a word. |
| RegexpExamples.FirstAlternative | linux/quickjs/upstream/libregexp.c:2406-2440 | a|ab on "ab" finds "a". |
| RegexpExamples.Lookaheads | linux/quickjs/upstream/libregexp.c:1970-1980 | a(?=b) finds the "a" of "ab", a(?!b) does not match there. |
| RegexpExamples.BehindFromTheRight | linux/quickjs/upstream/libregexp.c:2372-2404 | (?<=(a*)(a*))b on "aab": the second group takes "aa", the first one nothing. |
| RegexpExamples.ProgramBytes | linux/quickjs/upstream/libregexp.c:2552-2577 | The bytes of the program of /a/, from the search for a start to the match. |
| RegexpCorrect.Correct | linux/quickjs/upstream/libregexp.c:1845-2440 | The code of any node, wherever it stands and whatever is on the stack, delivers the outcomes of the node one after the other in the order of the standard (greedy and lazy, zero-advance checks, captures cleared or not), and changes nothing outside its own groups and registers. |
| RegexpLreExec.LreExec | linux/quickjs/upstream/libregexp.c:3326-3364 | On the bytecode of any pattern, string lists included, the answer and the captures are those of the pattern semantics from the adjusted start position, with the counting loops as above; in UTF-16 mode no reported capture lies between the halves of a surrogate pair. |
| RegexpCompile.LreCompile | linux/quickjs/upstream/libregexp.c:2522-2609 | The result is the header and the encoded program of the pattern, up to the order of strings of the same length in a list, with every register filled in and the sticky prefix chosen by the flags; "too many captures" is reported exactly for more than 255 groups, "too many quantifiers" only if more than 255 registers are needed, and without string lists memory runs out only for code of more than 2^30 bytes. |
| RegexpWalk.Walker.EmitDisjunction | linux/quickjs/upstream/libregexp.c:2406-2440 | The forks inserted in front of code already written and the jumps patched behind it give the code of the nested alternatives; it fails exactly when there are too many groups. |
| RegexpWalk.Walker.EmitAlternative | linux/quickjs/upstream/libregexp.c:2372-2404 | Emitting the terms one by one, each rotated in front of the earlier ones in a lookbehind, gives the code of the concatenation in matching order. |
| RegexpEmitter.Emitter.EmitQuantifier | linux/quickjs/upstream/libregexp.c:2261-2370 | From the bytes of the atom alone (scan, insertions in front, loop behind) the buffer becomes the code the pattern semantics needs for that quantifier. |
| RegexpWalk.Walker.EmitAtom | linux/quickjs/upstream/libregexp.c:1845-2259 | A group, lookaround, test or string list appends exactly the code of its node, with the lookahead jump patched; a list may use any order among its strings of the same length. |
| RegexpEmitter.Emitter.ScanAtom | linux/quickjs/upstream/libregexp.c:1557-1612 | The pass over the bytes computes the verdict defined on instructions. |
| RegexpScan.ScanVerdict | linux/quickjs/upstream/libregexp.c:1557-1612 | The scan asks for the zero-advance check unless every way through the atom has consumed a character before anything jumps, and asks for clearing the groups unless the atom is straight-line code without back references. |
| RegexpFacts.AdvancesMoves | linux/quickjs/upstream/libregexp.c:2261-2358 | Where the scan drops the zero-advance check, no outcome of the atom stays at its starting position. |
| RegexpFacts.LinearTouches | linux/quickjs/upstream/libregexp.c:2261-2358 | Where the scan drops the clearing of groups, no outcome of the atom changes a group other than those its code writes on every pass. |
| RegexpRegisters.PassCode | linux/quickjs/upstream/libregexp.c:2444-2505 | On the code of any node the linear pass never underflows, gives each loop registers above those in use around it, frees them again, and its peak is the number of registers the node needs. |
| RegexpCompile.ComputeRegisterCount | linux/quickjs/upstream/libregexp.c:2444-2505 | The pass over the byte buffer writes exactly the registers that the pass over instructions assigns, returns its peak, or -1 when the peak exceeds 255; both assertions of the source hold. |
| RegexpBytecode.AtEncoded | linux/quickjs/upstream/libregexp-opcode.h:27-71 | Encoded code, placed anywhere in a program, decodes at each instruction start to that instruction, so code may be moved as a block. |
| RegexpBounds.CodeBounded | linux/quickjs/upstream/libregexp.c:2261-2440 | Every jump stays within the size of the code it belongs to, every group and register number within its limit, so that the operands fit their fields. |
| RegexpClass.ClassAgrees | linux/quickjs/upstream/libregexp.c:1225-1259 | For every sorted interval list the instruction chosen (16-bit with 0xffff as infinity, 32-bit, or the impossible character for the empty list) accepts exactly the characters of the class. |
| RegexpClass.SearchFinds | linux/quickjs/upstream/libregexp.c:3229-3307 | Below the first lower bound nothing is searched, and the binary search finds a pair around the character exactly if there is one, without its upper index going below zero. |
| RegexpExec.Executor.TestRange | linux/quickjs/upstream/libregexp.c:3229-3307 | The loop of the engine returns the result of the search function, with its index in bounds at each step. |
| RegexpEmitter.Emitter.EmitRange | linux/quickjs/upstream/libregexp.c:1225-1259 | The bytes written are the encoding of the instruction chosen for the class. |
| RegexpExec.Executor.Backtrack | linux/quickjs/upstream/libregexp.c:2836-3324 | The engine with its undo log ends with the same captures and the same verdict as the machine that saves a whole snapshot at each choice point. |
| RegexpExec.Executor.ExecOne | linux/quickjs/upstream/libregexp.c:2842-3319 | One pass through the switch on the undo-log stack is one step of the snapshot machine. |
| RegexpExec.Executor.LookaheadMatch | linux/quickjs/upstream/libregexp.c:2874-2906 | Removing the choice points inside a lookahead, chaining their undo pairs and moving them down leaves a stack that stands for the snapshots below the lookahead. |
| RegexpUndo.Compacted | linux/quickjs/upstream/libregexp.c:2874-2906 | After the pairs of the removed choice points are moved to the choice point below, each remaining one still restores exactly the captures and registers it had when it was pushed. |
| RegexpUndo.SavedOnce | linux/quickjs/upstream/libregexp.c:2815-2834 | A second write to a word already logged since the innermost choice point need not be logged: every snapshot stays the same. |
| RegexpUndo.SavedWord | linux/quickjs/upstream/libregexp.c:2805-2813 | A logged write changes the word and none of the snapshots. |
| RegexpUndo.Unwound | linux/quickjs/upstream/libregexp.c:2874-2925 | The words found by undoing everything down to the lookahead are those of the lookahead's own snapshot. |
| RegexpBoundary.RunKeepsBoundaries | linux/quickjs/upstream/libregexp.c:2621-2702 | Whatever the program, a run that starts on code-point boundaries has its position, its captures and all those on the stack on boundaries at every step. |
| RegexpInput.StepsKeepBoundaries | linux/quickjs/upstream/libregexp.c:2621-2702 | From a boundary, a step forward and a step back end on boundaries and undo each other. |
| RegexpInput.PrevNextPrev | linux/quickjs/upstream/libregexp.c:2670-2702 | Reading a character forward between two steps back, as the lookbehind code does, ends where the first step back ended, from any position. |
| RegexpLookbehindList.StepsOver | linux/quickjs/upstream/libregexp.c:2621-2702 | In a subject made of any code points, a step forward reads each of them as one character, and a step back goes back over it. |
| RegexpStringEmitter.EmitStringList | linux/quickjs/upstream/libregexp.c:1276-1352 | For every order of the hash table the code written is that of nested alternatives, the strings in non-increasing length, then the class, then the empty string. |
| RegexpStringEmitter.ResolveJumps | linux/quickjs/upstream/libregexp.c:1340-1347 | Walking the chain of jump operands backward leaves every jump leading to the end of the list. |
| RegexpStringList.ListMeans | linux/quickjs/upstream/libregexp.c:1276-1352 | A string list matches exactly its strings, the characters of its class and, if it is a member, the empty string, and never tries a shorter member before a longer one. |
| RegexpStringList.OrderIrrelevant | linux/quickjs/upstream/libregexp.c:1276-1352 | Neither the order of the hash table nor the order that sorting leaves among strings of the same length changes what a list matches, in what order. |
| RegexpRealizes.StringsRealize | linux/quickjs/upstream/libregexp.c:1276-1352 | Whatever order a list was written in, the compiler treats it like the list in its own order (registers, groups, zero-advance check) and it has the same outcomes everywhere. |
| RegexpRealizes.FindRealized | linux/quickjs/upstream/libregexp.c:1276-1352 | A pattern whose lists are written in another order finds the same matches with the same captures. |
| RegexpLookbehindList.BackwardRun | linux/quickjs/upstream/libregexp.c:2147-2193 | In a lookbehind the two single steps back around the code of a class deliver: one character back, the outcomes of the class from there, and from each of them one character back. |
| RegexpLookbehindList.ListsBackward | linux/quickjs/upstream/libregexp.c:2147-2193 | That is what the list should match backward, on all subjects, exactly when each of its strings is one character. |
| RegexpLookbehindList.PairMissed | linux/quickjs/upstream/libregexp.c:2147-2193 | Behind "ab" the pattern `(?<=[\q{ab}])` matches, and its code finds nothing. |
| Limbs.MpMul1 | linux/quickjs/upstream/dtoa.c:92-105 | The limbs become the value times the factor plus the carry in, the carry out on top. |
| Limbs.MpDiv1 | linux/quickjs/upstream/dtoa.c:137-149 | Quotient and remainder of the whole number, limb by limb. |
| Limbs.MpShl | linux/quickjs/upstream/dtoa.c:170-184 | The value times 2^shift plus the low bits, the bits shifted out returned. |
| Limbs.MpShr | linux/quickjs/upstream/dtoa.c:152-166 | The value shifted right, with those bits of any high limb that fit above it; the bits shifted out are returned. |
| UdivNorm.Udiv1norm | linux/quickjs/upstream/dtoa.c:117-134 | For every divisor of at least 2^31 and every high limb below it, the estimate by the precomputed inverse and its one correction give the exact quotient and remainder. |
| UdivNorm.MpDiv1norm | linux/quickjs/upstream/dtoa.c:186-199 | Dividing the shifted number in place by the normalized divisor gives quotient and remainder of the original number by the original divisor. |
| UdivNorm.SameDivision | linux/quickjs/upstream/dtoa.c:137-199 | The equations that mp_div1norm and mp_div1 satisfy determine the limbs and the remainder, so that the two return the same for arrays of any length. |
| SmallPowers.PowUiInv | linux/quickjs/upstream/dtoa.c:271-298 | The table entry is the normalized power, its shift and its inverse. |
| Bignum.Mpb.ShrRound | linux/quickjs/upstream/dtoa.c:313-398 | Shifting by any amount, in both directions, rounds the value exactly in each rounding mode (truncation, ties to even, ties away from zero); the number stays normalized except for zero shifted up by whole limbs. |
| Bignum.Mpb.FloorLog2 | linux/quickjs/upstream/dtoa.c:448-459 | The exponent of the highest bit of a value that is not zero. |
| Rounding.RoundUnique | linux/quickjs/upstream/dtoa.c:313-398 | The rounding function is the only one that returns the nearest integer with the tie rule of its mode. |
| Rounding.StickyRound | linux/quickjs/upstream/dtoa.c:893-957 | With two bits to drop, rounding the quotient with all remainders collapsed into one sticky bit is rounding the exact fraction. |
| PowerScaling.MulPow | linux/quickjs/upstream/dtoa.c:893-957 | The buffer and the returned offset stand for a * radix^f exactly, or, where it was divided, for the truncated quotient with the sticky bit in place and enough bits below the point. |
| PowerScaling.ScaleDown | linux/quickjs/upstream/dtoa.c:915-946 | Dividing by one limb-sized power after the other is dividing by the whole power, and some remainder is non-zero exactly when the whole remainder is. |
| ScaleAndRound.MulPowRound | linux/quickjs/upstream/dtoa.c:959-967 | The result is m * 2^e * radix^f rounded to an integer as the mode says, for every sign of the exponents. |
| RoundToDouble.RoundToD | linux/quickjs/upstream/dtoa.c:970-1000 | The mantissa and exponent are those of the float64 nearest to the number, ties to even, also where the grid of subnormal numbers applies. |
| RoundToDouble.MulPowRoundToD | linux/quickjs/upstream/dtoa.c:1006-1013 | The mantissa and exponent are those of the float64 nearest to a * radix^f, although for negative f the value was divided out limb by limb. |
| NearestDoubles.NearestUnique | linux/quickjs/upstream/dtoa.c:970-1013 | A number has only one nearest float64 with a mantissa of 53 bits. |
| DoubleBits.NearestExists | linux/quickjs/upstream/dtoa.c:970-1013 | Every positive number has one. |
| DoubleBits.NearestIsDouble | linux/quickjs/upstream/dtoa.c:1591-1607 | What round_to_d returns is zero, a float64 or beyond all of them: subnormal numbers lose no bits when they are packed, and the branch whose comment asks for its rounding to be checked is never taken. |
| DoubleBits.PackUnpack | linux/quickjs/upstream/dtoa.c:1591-1607 | Taking the bits of a float64 apart and packing them gives the bits back. |
| DigitCounts.EnoughDigits | linux/quickjs/upstream/dtoa.c:721-725 | With the table's digit count P, radix^(P-1) is at least 2^53 and radix^P fits in 63 bits, for every radix. |
| RadixLogarithm.LogarithmExact | linux/quickjs/upstream/dtoa.c:458-488 | For every radix and every a from -2048 to 2047, multiplying by the 24-bit table entry and shifting gives exactly the whole part of a / log2(radix). |
| RadixLogarithm.LimitsReached | linux/quickjs/upstream/dtoa.c:735-751 | For every radix the two tables of exponents are large enough: radix^max reaches 2^1024 and radix^-min reaches 2^1075. |
| FreeFormat.FirstExponent | linux/quickjs/upstream/dtoa.c:1180-1182 | The first exponent makes the p-digit candidate at least radix^(p-1). |
| FreeFormat.FirstCandidate | linux/quickjs/upstream/dtoa.c:1188-1213 | The candidate of P_max digits, which the loop accepts untested, rounds back to the float64 it came from. |
| FreeFormat.FindExponent | linux/quickjs/upstream/dtoa.c:1195-1206 | The loop over the exponent ends after at most one step with a candidate of exactly p digits. |
| FreeFormat.FreeFormatDigits | linux/quickjs/upstream/dtoa.c:1184-1236 | The digits are the number correctly rounded to p digits, the last of them not zero; they read back as the same float64, and so does the number rounded to any count from p to the table's; rounded to p - 1 digits it does not, unless p is 1. |
| FreeFormat.Stripped | linux/quickjs/upstream/dtoa.c:1207-1211 | A candidate without its zeros at the end is the number rounded to fewer digits, and all counts in between read back or none does. |
| ReadingRange.ReadsExactly | linux/quickjs/upstream/dtoa.c:970-1013 | A number reads as a float64 if and only if it is no further away than half of the distance to the next float64 on its side, and exactly half only from an even mantissa; below a power of two that distance is half as large. |
| ShortestDigits.DigitsAreFewest | linux/quickjs/upstream/dtoa.c:1193-1229 | The digits that the search settles on are the fewest of any number that reads back, unless the float64 is a power of two above the smallest normal one and its last try, rounded up instead, would have read back; then they are not. |
| ShortestDigits.SomeReads | linux/quickjs/upstream/dtoa.c:1193-1229 | If any number with q digits reads back, with whatever exponent, then the number rounded to q digits does, or, at a power of two, the one after it. |
| ShortestDigits.OneDigitTooMany | linux/quickjs/upstream/dtoa.c:1193-1229 | For 2^-44 the search settles on the 17 digits 56843418860808015 although the 16 digits 5684341886080802 read back. |
| NumberTexts.PrintedTooLong | linux/quickjs/upstream/dtoa.c:1108-1318 | js_dtoa prints 2^-44 as 5.6843418860808015e-14. |
| Capacity.BufferSuffices | linux/quickjs/upstream/dtoa.c:64-64 | 52 limbs are enough for every float64, every radix and every exponent the search may try. |
| NumberRoundTrip.TextReadsBack | linux/quickjs/upstream/dtoa.c:1108-1620 | Every float64 except NaN, infinities and both zeros included, reads back from the text printed for it with the same bits, in every radix from 2 to 36, with the exponent automatic, forced or disabled, and with or without separators allowed; only the sign of a zero needs its flag. |
| NumberRoundTrip.ExactReading | linux/quickjs/upstream/dtoa.c:1442-1608 | If no digit beyond those that are kept differs from zero, the bits read are those of the float64 nearest to the exact value of the text. |
| NumberReader.DigitsKept | linux/quickjs/upstream/dtoa.c:721-733 | js_atod truncates no digit that js_dtoa prints, in any radix, and its buffer holds them. |
| RadixDigits.OutputDigits | linux/quickjs/upstream/dtoa.c:847-879 | The text is the n lowest digits of the number in the radix, with the dot at its place, for a number of any length. |
| NumberScan.SkipZeros | linux/quickjs/upstream/dtoa.c:1442-1459 | Leading zeros, before and behind the dot and with separators among them, are counted and skipped; what is left to scan starts with another digit. |
| NumberScan.ReadDigits | linux/quickjs/upstream/dtoa.c:1461-1511 | Collecting a limb's worth of digits at a time, over dot and separators, computes the number that digit-by-digit Horner gives for the kept digits, and tells whether a dropped digit was not zero. |
| NumberScan.ReadExponent | linux/quickjs/upstream/dtoa.c:1536-1556 | The loop over the exponent's digits computes the scanning function, with its separators and its overflow. |
| NumberScan.ExponentIs | linux/quickjs/upstream/dtoa.c:1536-1556 | Without overflow the exponent is the number of its digits; with it, that number is at least 1932735268. |
| NumberTexts.ScanMeans | linux/quickjs/upstream/dtoa.c:1442-1511 | What is scanned as a number is the digits from there on, with at most one dot, which stands behind the digits counted for it, and separators only before digits; it ends where the next character does not belong to it or is a second dot. |
| NumberTexts.DigitLetters | linux/quickjs/upstream/dtoa.c:1320-1330 | Digits are written as 0-9 and a-z and read as those or A-Z, and nothing else is a digit. |
| NumberTexts.DecimalText | linux/quickjs/upstream/dtoa.c:1354-1560 | The text -1_0.5E-1z is taken apart as the digits 1, 0, 5 with two before the dot and the exponent -1, and ends before the z. |
| NumberTexts.HexText | linux/quickjs/upstream/dtoa.c:1354-1560 | The text 0x1F.8p+3 is taken apart as the digits 1, 15, 8 with two before the dot and an exponent of 3 bits. |
| NumberReader.Atod | linux/quickjs/upstream/dtoa.c:1354-1620 | A text is refused, read as an infinity, or read as digits, dot and exponent, with the position where it ends; the bits are those of the float64 nearest to the number of all its digits if the radix is a power of two, and of the kept digits otherwise. |
| NumberReader.ReadTwo | linux/quickjs/upstream/dtoa.c:1570-1581 | For powers of two the result is correctly rounded however many digits follow, through the bit that stands for them; the tests of the exponent agree with the rounding they save. |
| NumberReader.ReadOther | linux/quickjs/upstream/dtoa.c:1582-1589 | For other radices the tests of the exponent against the tables agree with the rounding they save, and the buffer suffices. |
| NumberReader.OverflowIsRight | linux/quickjs/upstream/dtoa.c:1536-1563 | An exponent that is not read to its end because it overflows gives the same result as all of its digits would, in texts of up to 10^8 digits. |
| NumberPrinter.WholeNumber | linux/quickjs/upstream/dtoa.c:590-690 | The three ways to print a whole number below 2^64 (nine digits at a time, bits at a time with the length from clz, digit by digit) give its digits without leading zeros, in every radix. |
| NumberPrinter.Output | linux/quickjs/upstream/dtoa.c:1278-1312 | Digits are laid out with a dot inside, zeros before or behind, or an exponent in digits or bits. |
| NumberPrinter.NumberToString | linux/quickjs/upstream/dtoa.c:1278-1312 | In decimal with the automatic exponent the layout is Number::toString of section 6.1.6.1.20 of ECMA-262, case by case. |
| NumberPrinter.JsDtoa | linux/quickjs/upstream/dtoa.c:1108-1318 | The free format prints the special values, a whole number below 2^53 in full, or else the digits that the search settles on, laid out with their exponent, for all bits and every radix. |
| RadixDigits.PrintAndRead | linux/quickjs/upstream/dtoa.c:847-1492 | Printing n digits and reading them gives the number modulo radix^n, hence the number itself if it is smaller. |
| RadixDigits.ReadAndPrint | linux/quickjs/upstream/dtoa.c:847-1492 | Reading digits and printing as many gives the digits back. |
| RadixDigits.LimbBases | linux/quickjs/upstream/dtoa.c:1404-1406 | The tables of digits per limb and of limb-sized powers agree for every radix. |
| PunycodeRoundTrip.RoundTrip | example/assets/js/ajv.js:5674-5893 | For every sequence of code points whose encoding does not overflow, decoding the encoding returns the string if the decoder's running index stays within 2^31 - 1, a condition on the string, and otherwise the overflow error; nothing else can happen. |
| PunycodeRoundTrip.ShortRoundTrip | example/assets/js/ajv.js:5674-5893 | Strings of at most 1927 code points always meet the condition. |
| PunycodeRoundTrip.LongStringsMayFail | example/assets/js/ajv.js:5674-5893 | A string of 1928 code points that the encoder accepts and the decoder refuses: the bound is tight. |
| PunycodeRoundTrip.MainTracks | example/assets/js/ajv.js:5674-5893 | Through the encoder's passes the decoder's code point, index and bias are where the encoder's delta says they are. |
| PunycodeRoundTrip.StalePoints | example/assets/js/ajv.js:5873-5893 | The count of handled code points that the encoder passes to adapt is stale after the first insertion of a pass, and the bias is the same as with the current count. |
| PunycodeRoundTrip.ReadEmit | example/assets/js/ajv.js:5703-5885 | Reading back a variable-length integer adds it to the index, or overflows exactly when the sum does; the digit weights themselves never overflow. |
| PunycodeExact.AdaptIs | example/assets/js/ajv.js:5659-5667 | The bias in closed form: with x the delta over 700 at the first insertion and over 2 afterwards, y = x + x/points and j least with y/35^j <= 455, it is 36j + 36d/(d+38) for d = y/35^j. |
| PunycodeExact.ThresholdIs | example/assets/js/ajv.js:5722-5722 | The threshold of the j-th digit is 36(j+1) minus the bias, but at least 1 and at most 26. |
| PunycodeExact.EmitWorth | example/assets/js/ajv.js:5872-5885 | The digits written for a delta are worth that delta with the weights of section 3.3 of RFC 3492, and only the last of them is below its threshold. |
| PunycodeExact.DigitLetters | example/assets/js/ajv.js:5622-5650 | Digits are written as a-z and 0-9; capital letters are read like small ones. |
| PunycodeExact.TwoUmlauts | example/assets/js/ajv.js:5763-5893 | The string of U+00E4 and U+00F6 is encoded as 4ca0b. |
| PunycodeExact.BasicOnly | example/assets/js/ajv.js:5763-5893 | A string of basic code points is encoded as itself with a delimiter behind it, the empty string as itself. |
| PunycodeExact.OnlyBasicText | example/assets/js/ajv.js:5674-5755 | A text with a unit of 128 or more, before or behind the delimiter, is not decoded. |
| PunycodeExact.DigitExact | example/assets/js/ajv.js:5622-5634 | A character is told from a digit exactly if it is a letter or digit or comes after "z": every other character is taken for a digit too. |
| PunycodeExact.ControlCharacterRead | example/assets/js/ajv.js:5622-5755 | The control character 0x16 is decoded to U+0080, as "a" is. |
| PunycodeExact.OnePair | example/assets/js/ajv.js:5576-5612 | U+1F600 is the pair D83D DE00 in both directions. |
| PunycodeLoops.EncodeString | example/assets/js/ajv.js:5763-5893 | The loops of encode compute the encoding function or its overflow error. |
| PunycodeLoops.DecodeString | example/assets/js/ajv.js:5674-5755 | The loops of decode compute the decoding function and each of its errors. |
| PunycodeLoops.Ucs2DecodeLoop | example/assets/js/ajv.js:5576-5600 | The loop pairs surrogates as the specification function does and leaves unpaired ones alone. |
| JsonEqual.EqualExact | example/assets/js/ajv.js:5072-5111 | equal returns true exactly for values that are the same up to the order of members and in which no object has a member valueOf or toString, or a member constructor that is an object. |
| JsonEqual.KeysAgreeExactly | example/assets/js/ajv.js:5072-5172 | For every value: its cache key agrees with deep equality against every other value if and only if it is tame in that sense and holds neither null nor an infinity. |
| JsonEqual.KeysAgree | example/assets/js/ajv.js:5072-5172 | Among values without infinities, the cache key of a value agrees with deep equality against every other one if and only if it is tame. |
| JsonEqual.EqualHaveSameKey | example/assets/js/ajv.js:5072-5172 | Deeply equal values have the same key, for all values. |
| JsonEqual.NotReflexive | example/assets/js/ajv.js:5072-5111 | Two concrete values: one that is not equal to a copy of itself, one whose comparison with a copy throws. |
| JsonEqual.InfinityCollides | example/assets/js/ajv.js:5116-5172 | Two concrete values, [1e400] and [null], with the same key that are not equal. |
| JsonText.TextIdentifies | example/assets/js/ajv.js:5116-5172 | Two values have the same text if and only if they are the same up to the order of members and up to infinities being written as null. |
| JsonReader.AtMostIs | example/assets/js/ajv.js:5159-5159 | The order of the keys: one is a prefix of the other, or at the first unit where they differ its unit is smaller. |
| JsonReader.TextReads | example/assets/js/ajv.js:5116-5172 | A reader of JSON text takes the whole text of a value and gets the same value back, with infinities as null and the keys of every object in ascending order. |
| JsonReader.Escapes | example/assets/js/ajv.js:5116-5172 | How the characters that need an escape are written. |
| JsonLoops.StringifyLoop | example/assets/js/ajv.js:5116-5172 | The loops of stringify compute the serialisation function. |
| JsonLoops.EqualLoop | example/assets/js/ajv.js:5072-5111 | The loops of equal compute the comparison function, including where it throws. |
| JsonLoops.SchemaCache.AddSchema | example/assets/js/ajv.js:6947-6985 | A cache hit returns a schema that is the same up to infinities, and deeply equal to the one asked for if that is tame and without null; a miss means no cached schema is the same, and adds this one. |
| Rqsort.Rqsort | linux/quickjs/upstream/cutils.c:522-639 | For every comparator the call ends, keeps the elements and never holds more than 50 pending segments; for every total preorder the array is sorted. |
| HeapSort.Heapsortx | linux/quickjs/upstream/cutils.c:480-512 | The segment is permuted for every comparator, and sorted for every total preorder. |
| Partition.Divide | linux/quickjs/upstream/cutils.c:556-622 | One partition leaves the smaller elements on the left, those equal to the pivot in the middle and the greater ones on the right, whatever the sizes of the four zones were. |
| Partition.Med3IsMedian | linux/quickjs/upstream/cutils.c:514-520 | For a total preorder the chosen element is between the other two. |
| Sorting.InsertionSort | linux/quickjs/upstream/cutils.c:629-636 | The tail loop sorts a short segment in place. |
| DotSegments.RemovesDotSegments | example/assets/js/ajv.js:6240-6264 | The loop ends with a path exactly for inputs without CR, U+2028 and U+2029; the path then has no "." or ".." segment and is left unchanged by a second call. With such a character it throws or never ends. |
| DotSegments.CarriageReturn | example/assets/js/ajv.js:6240-6264 | On a slash and a carriage return the loop never ends; on a carriage return alone it throws. |
| DotSegments.ParentSegment | example/assets/js/ajv.js:6247-6249 | Behind at least one segment, "/.." and that segment go away together: the outcome is that of the path without the two. |
| DotSegments.SameSegment | example/assets/js/ajv.js:6245-6246 | Behind any segments, "/." goes away. |
| DotSegments.LeadingDots | example/assets/js/ajv.js:6243-6251 | At the start "../" and "./" are dropped, "/.." has no segment to take with it, and "." and ".." alone are nothing. |
| DotSegments.FirstDotSegment | example/assets/js/ajv.js:6240-6264 | Every other path consists of segments that are not dots, alone or followed by the first dot segment, so that these laws determine every result. |
| DotSegments.NothingToDo | example/assets/js/ajv.js:6252-6256 | A path without dot segments is returned as it is. |
| DotSegments.RemoveDotSegments | example/assets/js/ajv.js:6240-6264 | The loop computes the rewriting function step by step, which the laws above determine. |

## Findings

Where a property that the code suggests is false of the code, the model keeps the
code, and the project gives an input and the exact condition.

| what one would expect | input that shows it fails | when it holds |
|---|---|---|
| js_dtoa finds the minimum number of digits, as its comment says (linux/quickjs/upstream/dtoa.c:1193-1229) | `ShortestDigits.OneDigitTooMany`, `NumberTexts.PrintedTooLong`: 2^-44 is printed as 5.6843418860808015e-14, and 5.684341886080802e-14 reads back | `ShortestDigits.DigitsAreFewest`: exactly when the float64 is not a power of two above the smallest normal one whose last try, rounded up, reads back |
| decoding an encoded Punycode string returns it (example/assets/js/ajv.js:5674-5755, 5763-5893) | `PunycodeRoundTrip.LongStringsMayFail`: a string of 1928 code points, on which the decoder raises its overflow error because it checks `i + delta` where the encoder checks only `delta` | `PunycodeRoundTrip.RoundTrip`: exactly when the decoder's index stays in range; always up to 1927 code points (`ShortRoundTrip`) |
| a character that is no letter or digit has the digit value `base`, as its comment says (example/assets/js/ajv.js:5613-5634) | `PunycodeExact.ControlCharacterRead`: 0x16 is read as the digit 0, and a text of it is decoded | `PunycodeExact.DigitExact`: exactly when the character comes after "z" |
| a value is deeply equal to a copy of itself (example/assets/js/ajv.js:5072-5111) | `JsonEqual.NotReflexive`: `{"constructor":{}}` is not equal to its copy, `{"valueOf":null}` makes the comparison throw | `JsonEqual.EqualExact`: exactly when no object has a member `valueOf` or `toString`, or a member `constructor` that is an object or array |
| equal cache keys mean deeply equal values (example/assets/js/ajv.js:5116-5172) | `JsonEqual.InfinityCollides`: `[1e400]` and `[null]` have the key `[null]` | `JsonEqual.KeysAgreeExactly`: for a value and all others exactly when the value is tame and holds neither null nor an infinity |
| removing dot segments ends (example/assets/js/ajv.js:6240-6264) | `DotSegments.CarriageReturn`: on a slash and a carriage return the loop never ends, on a carriage return alone it throws | `DotSegments.RemovesDotSegments`: exactly when the path has no CR, U+2028 or U+2029, which the dot of the last regular expression does not match |
| a class that contains strings matches them in a lookbehind (linux/quickjs/upstream/libregexp.c:2147-2193, 1276-1352) | `RegexpLookbehindList.PairMissed`: `(?<=[\q{ab}])` finds nothing behind "ab", because the code steps back one character and reads two | `RegexpLookbehindList.ListsBackward`: exactly when each string of the class is one character |
| a loop without an upper bound has none (linux/quickjs/upstream/libregexp.c:2332-2357) | `RegexpCapped.LongLoopDiffers`: `(?:\|a){2147483646,}` on "aa" | `RegexpCapped.CounterExact`: exactly when the loop's minimum and the length of the subject together do not exceed 2^31 - 1 |

## Left out

- The case-insensitive opcodes, the white-space opcodes, `lre_canonicalize`, `cr_op1` and property classes: they rest on generated Unicode tables that are not part of this model.
- The surface syntax of patterns (escapes, group names, modifiers, Annex B), which would add branches to the parser but nothing to what is emitted; the model's emitter is driven by a tree with the same recursion.
- The trailer of group names behind the bytecode, and the flag that announces it.
- Timeouts, memory failure and the reallocation of the engine's stack: the stack is unbounded. The limit on the size of the bytecode is modelled.
- RegexpStringEmitter.EmitStringList: the hash table (`re_string_find2` and the set operations on lists) is a sequence in the order in which the table is walked, and the code has to stay below 2^31 bytes.
- RegexpWalk.Walker.EmitAtom: a string list in a lookbehind is not part of the tree that is compiled, because what the code does there is not what such a pattern means; `RegexpLookbehindList` treats it on its own.
- RegexpCompile.LreCompile: for patterns with string lists it is not said which of them make the memory run out. The buffer is unbounded until it is complete, except that a list has to stay below 2^31 bytes.
- NumberReader.Atod: the radix is given, so that the prefixes 0o, 0b and the octal zero are not read. The exponent is not limited to 32 bits; in the source the product of an exponent of more than 2^28 and the number of bits per digit is a signed overflow.
- NumberReader.Atod: digits beyond the table's number are dropped for radices other than powers of two, as the source says; reading longer texts is not claimed to be correctly rounded there.
- NumberPrinter.JsDtoa: the text is a sequence of its own instead of the caller's buffer, and `js_dtoa_max_len` is not modelled; nor are the fixed and the fractional format.
- RoundToDouble.RoundToD: only round to nearest, ties to even, the one mode it is called with.
- Bits joined with `|` in limb code are modelled as sums where the operands have no bit in common.
- Json: values are trees without aliasing, as JSON.parse returns them; toJSON, NaN, functions and the options of stringify do not occur. A number stands for its shortest decimal text. Array.prototype.sort is insertion into a sorted list.
- JsonLoops.SchemaCache.AddSchema: whether the checks of identifiers and the validation of a new schema succeed is a parameter; the compiled form of a schema is the schema.
- PunycodeLoops.DecodeString: the limit that engines put on the number of arguments of String.fromCodePoint is not modelled.
- Rqsort.Rqsort: elements are swapped whole; the byte-wise exchange functions are not modelled.
- Ajv's code generation, formats and URI schemes, the plugin's registration code and the command line program.
