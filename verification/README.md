# Balanced-ternary runtime and lowering: a Dafny model

The repository packs balanced-ternary numbers into unsigned words, two bits a trit (00 is -1,
01 is 0, 10 is +1, and the spare code 11 is read as +1), and offers arithmetic that goes
through `int64_t` beside logic, shifts and rotations that work trit by trit. A compiler plugin
rewrites conditional expressions into calls of that runtime and folds constants. This project
models both and proves that the two styles of the runtime agree, that the plugin's rewriting
keeps the meaning of a program, and where exactly either fails to.

`dafny verify dfyconfig.toml` checks everything.

## How it is built

| file | content |
|---|---|
| `CArith.dfy` | `int64_t` as a newtype, C's truncating `/` and `%`, wrap-around, congruence |
| `BitOps.dfy` | `>>`, `<<`, `&`, `\|`, `~` on unsigned integers, bit by bit |
| `Trits.dfy` | numerals: sequences of trits, their value, balanced expansion, uniqueness |
| `TritLogic.dfy`, `TritShift.dfy`, `TritOrder.dfy` | tritwise operations, shifts, rotations, rounding and order of numerals |
| `Words.dfy` | packed words: reading and writing one trit, packing a numeral, canonical words |
| `PackedOps.dfy` | what each runtime operation on words of n trits computes |
| `Runtime.dfy` | the runtime's loops and helpers, each proved to compute it |
| `WordLaws.dfy` | the laws of the packed operations |
| `Wide.dfy` | the 128-bit container, whose trits outgrow `int64_t` |
| `Parser.dfy` | string literals |
| `Constants.dfy`, `Folding.dfy` | the plugin's range test, packing, unpacking and constant folding |
| `Lowering.dfy` | lowering of conditionals: the pass, and what trees and statements mean |
| `Guarding.dfy` | side-effecting operators, which the pass leaves alone |
| `Residue.dfy` | which conditionals the pass drops and which survive it, read off the source |
| `Preservation.dfy` | when the lowered code has the source's meaning |
| `Trapping.dfy` | which operations the lowered code performs |
| `Wrappers.dfy` | `Option` |

Words are natural numbers, and everything is proved for any trit count n; `width` is the
number of bits of the container, so one method stands for the `uint64_t` copy of a loop and
for its `unsigned __int128` copy. Signed arithmetic is done in the newtype `int64`, which
makes the absence of overflow a proof obligation of each method; the two places where C's
result is undefined are a stated precondition (the product in `mul` and `tmuladd`) or an
outcome of its own (`Undefined` in the string parser). Only `Wide.dfy` takes signed overflow
to wrap, as an explicit assumption: decoding more than 39 trits computes 3^40 in `int64_t`.

The plugin's packing and unpacking loops are copies of the runtime's encode and decode loops,
so `Constants.dfy` calls the methods that stand for those. In `Lowering.dfy` a tree is a
value; the statements inserted, the temporaries and the counters are the state of a class.

A conditional without a select helper survives the pass: the old node is returned, in which
operators have been overwritten and conditionals have not. The source means a 32-trit condition
by its logical value, and so do `tt2b` and a constant condition; a surviving conditional is
compiled as any other and tests the word itself against zero, which is how `Lowering.Eval`
reads it. The packed zero is the word 0x5555555555555555, so the two differ.

A word is *canonical* when it uses neither the spare code nor bits above its trits.

## Where code and documentation differ

The model follows the code.

- `tround` truncates toward zero; docs/MASTER_ISA.md:82-85 says dropping trits and truncating
  are the same. `WordLaws.RoundAgainstDrop` gives the exact condition and
  `WordLaws.RoundDiffersFromDrop` a word where they differ. A drop of all trits
  returns the word 0, which is the lowest value and not zero (`WordLaws.RoundIsTruncation`).
- docs/SPECIFICATION.md:133-134 and 181 call the right shift arithmetic and sign-preserving.
  It rounds the value over 3^s to nearest exactly when nothing is shifted or the top trit is 0
  (`WordLaws.ShrNearest`), and keeps the sign exactly when a kept trit is not 0 or the word is
  0 (`WordLaws.ShrSign`). `WordLaws.ShrNotNearest` and `WordLaws.ShrLosesSign` give words
  that fail.
- `tnormalize` turns the spare code into 0 although every reader takes it as +1; it keeps the
  value exactly when there is nothing to normalise (`WordLaws.NormalizeKeepsValue`,
  `WordLaws.NormalizeLosesValue`).
- The parser's guard stops only overflow on the side of the token's sign
  (`Parser.StepExact`, `Parser.FortyOneMayNot`).
- `ternary_value_fits_trits` accepts everything at 40 trits, which do not hold every
  `int64_t` (`Constants.RangeTestExact`).
- On 64 trits `neg`, `add` and `tmux` see the operand modulo 2^64 while `tnot` and the sign
  scan see all of it (`Wide.NegWrappedExact`, `Wide.AddWrappedExact`, `Wide.WideSign`, each
  with a failing word beside it).
- A call that is emitted because nothing folded receives its literals unpacked
  (`Folding.UnfoldedLiteralDiffers`).
- A conditional on a 32-trit variable or operation whose result type has no select helper
  keeps testing the word (`Preservation.SurvivorFails`, `Preservation.SurvivorIff`).
- A select helper gets both branches evaluated (`Trapping.LazyIsNotSafe`); which operations the
  lowered code performs is decided exactly by `Trapping.TrapsPredicted`.

## Model

| member | source | states |
|---|---|---|
| CArith.TruncDivMod | runtime/ternary_runtime.c:1029-1040 | C's quotient and remainder recompose the dividend; the remainder is smaller than the divisor and has the dividend's sign or is 0 |
| CArith.TruncUnique | runtime/ternary_runtime.c:1029-1040 | no other pair of integers has those properties |
| BitOps.ShiftsScale | runtime/ternary_runtime.c:123-134 | the shifts multiply by 2^k and divide by it, rounding down |
| BitOps.BitwiseBits | runtime/ternary_runtime.c:123-134 | and, or act on every bit position by itself |
| BitOps.NotBits | runtime/ternary_runtime.c:131-133 | complement flips each of the container's bits and no other |
| Words.GetSet | runtime/ternary_runtime.c:123-134 | frame of set_trit: the written trit reads back, every other trit keeps its two bits, for any container width |
| Words.TritsOfPack | runtime/ternary_runtime.c:35-53 | reading a packed numeral gives the numeral; the word is canonical |
| Words.CanonicalIff | runtime/ternary_runtime.c:12-19 | repacking a word's trits gives the word itself if and only if it is canonical |
| Trits.BalancedResidue | runtime/ternary_runtime.c:35-53 | the expansion has the only value in [-(3^n-1)/2, (3^n-1)/2] congruent to v modulo 3^n |
| Trits.ValUnique | runtime/ternary_runtime.c:21-33 | numerals of n trits that agree modulo 3^n are equal |
| Runtime.TernaryDecode | runtime/ternary_runtime.c:21-33 | up to 39 trits the loop, in int64_t without overflow, computes the sum of trit i times 3^i |
| Runtime.TernaryEncode | runtime/ternary_runtime.c:35-53 | the C remainder and quotient, corrected and or-ed in place, produce the balanced expansion |
| Runtime.BalancedStep | runtime/ternary_runtime.c:39-48 | the corrected truncating step is division with a balanced remainder, for negative values too |
| WordLaws.RoundTripValue | runtime/ternary_runtime.c:21-53 | decode(encode(v)) is the unique balanced residue of v, and v itself iff n trits hold it |
| WordLaws.EncodeEqual | runtime/ternary_runtime.c:35-53 | two integers encode to one word iff they are congruent modulo 3^n |
| WordLaws.RoundTripWord | runtime/ternary_runtime.c:21-53 | encode(decode(w)) is the canonical form of w, and w itself iff w is canonical |
| WordLaws.ArithmeticMeaning | runtime/ternary_runtime.c:1006-1045 | add, sub, mul return the balanced residue of the exact result, exact iff it is in range; neg is always exact |
| WordLaws.OverflowAt32 | runtime/ternary_runtime.c:1006-1028 | on 32 trits sums and differences never overflow int64_t, and some product does |
| WordLaws.FusedIsUnfused | runtime/ternary_runtime.c:195-206 | tmuladd equals mul then add, bit for bit, even when the product wraps modulo 3^n |
| Runtime.TernaryMuladd | runtime/ternary_runtime.c:195-206 | whenever product and sum fit int64_t the result is the word mul and then add give |
| WordLaws.DivisionIdentity | runtime/ternary_runtime.c:1029-1040 | div times b plus mod is the canonical form of a, its product fits int64_t, and the remainder has C's bounds and sign |
| WordLaws.DivideByZero | runtime/ternary_runtime.c:1029-1040 | quotient and remainder by a zero word decode to 0 |
| Runtime.AddT | runtime/ternary_runtime.c:1006-1011 | without overflow, up to 39 trits, the result is the balanced residue of the sum, exact iff in range |
| Runtime.SubT | runtime/ternary_runtime.c:1023-1028 | the same for the difference |
| Runtime.MulT | runtime/ternary_runtime.c:1012-1017 | when the exact product fits int64_t, the result is its balanced residue |
| Runtime.NegT | runtime/ternary_runtime.c:1041-1045 | without overflow the result decodes to the negated value |
| Runtime.DivT | runtime/ternary_runtime.c:1029-1034 | without overflow the result decodes to C's quotient, 0 for a zero divisor |
| Runtime.ModT | runtime/ternary_runtime.c:1035-1040 | without overflow the result decodes to C's remainder, 0 for a zero divisor |
| Runtime.TernaryTritwiseOp | runtime/ternary_runtime.c:136-152 | trit by trit, code 0 gives the smaller trit, code 1 the larger, any other the sum brought back into -1..1 |
| Runtime.TernaryNot | runtime/ternary_runtime.c:184-193 | the loop packs the negated trits |
| Runtime.TernaryMajority | runtime/ternary_runtime.c:339-349 | the loop packs the tritwise majority |
| WordLaws.BitwiseTrits | runtime/ternary_runtime.c:136-152 | the same of the specification, for every trit and every code |
| WordLaws.NotIsNeg | runtime/ternary_runtime.c:184-193 | tnot and neg are the same word on every input |
| WordLaws.AndOrAdd | runtime/ternary_runtime.c:136-152 | adding the tritwise minimum and maximum equals adding the operands |
| WordLaws.AndIsLower | runtime/ternary_runtime.c:136-152 | the minimum's value is at most both operands' values, the maximum's at least |
| WordLaws.MajIsMedian | runtime/ternary_runtime.c:161-168 | majority is the median built from minima and maxima |
| TritLogic.TritXorIsSum | runtime/ternary_runtime.c:114-121 | trit xor is the balanced residue of the sum modulo 3 |
| WordLaws.XorGroup | runtime/ternary_runtime.c:114-152 | tritwise xor is associative and commutative, and xor with tnot(b) undoes xor with b up to canonical form |
| WordLaws.XorIsAddWord | runtime/ternary_runtime.c:114-152 | xor equals add iff no pair of trits below the top one sums outside -1..1 |
| Runtime.TernaryNormalize | runtime/ternary_runtime.c:271-282 | exactly the trits with the spare code become 0; every other position keeps its bits |
| WordLaws.NormalizeKeepsValue | runtime/ternary_runtime.c:271-282 | normalising keeps the decoded value iff no trit has the spare code |
| WordLaws.NormalizeLosesValue | runtime/ternary_runtime.c:271-282 | a word with one spare code has value 1 before and 0 after |
| Runtime.TernaryShiftLeft | runtime/ternary_runtime.c:622-635 | the loop computes 3^(count mod n) times the value, modulo 3^n; a word of no trits is returned as it is |
| Runtime.TernaryShiftRight | runtime/ternary_runtime.c:637-651 | position i takes trit i + count mod n of the operand, or its top trit when there is none |
| Runtime.TernaryRotateLeft | runtime/ternary_runtime.c:653-665 | trit i is the operand's trit (i - count) mod n |
| Runtime.TernaryRotateRight | runtime/ternary_runtime.c:667-679 | trit i is the operand's trit (i + count) mod n |
| WordLaws.ShlScales | runtime/ternary_runtime.c:622-635 | left shift by any count is the encoding of 3^(count mod n) times the value |
| WordLaws.ShrTrits | runtime/ternary_runtime.c:637-651 | right shift trit by trit, for any count: position i takes trit i + count mod n, or the top trit when there is none |
| WordLaws.ShlShr | runtime/ternary_runtime.c:622-651 | shifting left and back gives the canonical word iff the top s+1 trits are equal |
| WordLaws.ShrValue | runtime/ternary_runtime.c:637-651 | exact value: the kept trits plus top*(3^n - 3^(n-s))/2; the kept value alone iff s or the top trit is 0 |
| WordLaws.ShrNearest | runtime/ternary_runtime.c:637-651 | the result is the unique nearest integer to the value over 3^s iff s or the top trit is 0 |
| WordLaws.ShrNotNearest | runtime/ternary_runtime.c:637-651 | for every n from 2 up, the word of 3^(n-1) shifted right by one gives four times the nearest integer |
| WordLaws.ShrSign | runtime/ternary_runtime.c:637-651 | the result has the sign of the kept trits, which is the word's sign iff they are not all 0 or the word is 0 |
| WordLaws.ShrLosesSign | runtime/ternary_runtime.c:637-651 | the word of 1 shifted right by one is 0 |
| WordLaws.RolScales | runtime/ternary_runtime.c:653-665 | rotation by any count is multiplication by 3^count modulo 3^n - 1 |
| WordLaws.RolCompose | runtime/ternary_runtime.c:653-665 | two rotations are one by the sum of the counts |
| WordLaws.RolRorInverse | runtime/ternary_runtime.c:653-679 | left and right rotation undo each other up to canonical form |
| WordLaws.IntCounts | runtime/ternary_runtime.c:1058-1073 | for every int count k, negative or not, and every n dividing 2^32: the left shift encodes 3^(k mod n) times the value, the right shift has the kept value at k mod n plus the top trit's weight, and the rotations take trit i from (i - k) mod n and (i + k) mod n |
| WordLaws.RolNegative | runtime/ternary_runtime.c:1066-1073 | a negative int count rotates the other way by its magnitude, when n divides 2^32 as 32 and 64 do |
| Runtime.ShlT | runtime/ternary_runtime.c:1058-1061 | for every int count, when n divides 2^32: the encoding of 3^(count mod n) times the value |
| Runtime.ShrT | runtime/ternary_runtime.c:1062-1065 | for every int count, when n divides 2^32: the kept value at count mod n plus the top trit's weight |
| Runtime.RolT | runtime/ternary_runtime.c:1066-1069 | for every int count, when n divides 2^32: trit i is the operand's trit (i - count) mod n |
| Runtime.RorT | runtime/ternary_runtime.c:1070-1073 | for every int count, when n divides 2^32: trit i is the operand's trit (i + count) mod n |
| Runtime.TernaryRound | runtime/ternary_runtime.c:208-217 | the value over 3^drop truncated toward zero, in int64_t without overflow; a drop of n or more returns word 0 |
| WordLaws.RoundIsTruncation | runtime/ternary_runtime.c:208-217 | the result is the value over 3^drop truncated toward zero iff drop < n |
| WordLaws.WordZero | runtime/ternary_runtime.c:210-211 | the word 0 decodes to -(3^n-1)/2 |
| WordLaws.RoundAgainstDrop | runtime/ternary_runtime.c:208-217 | truncation differs from dropping trits by at most 1, and agrees iff the dropped part is 0 or has the sign of the whole |
| WordLaws.RoundDiffersFromDrop | runtime/ternary_runtime.c:208-217 | the word of 2 rounds to 0 and drops to 1 |
| WordLaws.RoundTwice | runtime/ternary_runtime.c:208-217 | two rounds are one by the sum of the drops iff that sum is below n, or the second drops nothing, or it drops everything |
| TritOrder.LeadingTritIsSign | runtime/ternary_runtime.c:373-381 | the first non-zero trit from the top is the sign of the value |
| Runtime.TernarySign | runtime/ternary_runtime.c:373-381 | the scan returns -1, 0 or 1 exactly as the decoded value is negative, zero or positive, for any n |
| Runtime.TernaryTmux | runtime/ternary_runtime.c:466-474 | a negative selector gives neg, zero gives zero, a positive one pos; the leading trit decides the same |
| Runtime.TernarySignjmp | runtime/ternary_runtime.c:299-308 | a negative word goes to neg, zero to zero, a positive one to pos; the leading trit decides the same |
| Runtime.CmpT | runtime/ternary_runtime.c:1098-1107 | -1, 0 or 1 exactly as the first value is less than, equal to or greater than the second; this is the lexicographic order of the trits from the top |
| WordLaws.CmpIsWordOrder | runtime/ternary_runtime.c:1098-1107 | on canonical words cmp is also the order of the words as unsigned integers |
| Wide.TernaryDecodeU128 | runtime/ternary_runtime.c:681-692 | with wrapping int64_t arithmetic the loop computes the value wrapped once, for any n |
| Wide.PowerOverflows | runtime/ternary_runtime.c:684-690 | 3^39 fits int64_t and 3^40 does not |
| Wide.WideRoundTrip | runtime/ternary_runtime.c:681-713 | the wrapping pair gives an int64_t back iff n trits hold it; always from 41 trits on |
| Wide.AddWide | runtime/ternary_runtime.c:1006-1011 | the helper on the wide container adds the wrapped operands and wraps |
| Wide.AddWrappedExact | runtime/ternary_runtime.c:1006-1011 | that is the exact sum modulo 3^n iff the exact sum fits int64_t, from 42 trits on |
| Wide.AddWrappedFails | runtime/ternary_runtime.c:1006-1011 | INT64_MAX + 1 comes out wrong although the trits hold it |
| Wide.NegWide | runtime/ternary_runtime.c:1041-1045 | the helper on the wide container negates the wrapped operand and wraps |
| Wide.NegWrappedExact | runtime/ternary_runtime.c:219-228 | on wide words neg and tritwise tnot agree iff the negated value fits int64_t |
| Wide.NegWrappedFails | runtime/ternary_runtime.c:219-228 | the word of INT64_MIN: tnot negates it, neg does not |
| Wide.TmuxWide | runtime/ternary_runtime.c:476-484 | neg, zero or pos by the sign of the selector's value wrapped to int64_t |
| Wide.WideSign | runtime/ternary_runtime.c:383-391 | it chooses as the sign scan does iff the value's residue modulo 2^64 is on the side of its sign |
| Wide.WideSignFails | runtime/ternary_runtime.c:476-484 | on the word of 2^63 the two choose differently |
| Parser.LexReads | runtime/ternary_runtime.c:60-84 | every text the literal grammar writes is read back token for token |
| Parser.LexSound | runtime/ternary_runtime.c:60-84 | a text that is read to its end was written by the grammar |
| Parser.SplitText | runtime/ternary_runtime.c:60-84 | every string is what the grammar writes, followed by its end or by something no piece begins |
| Parser.LexPieces | runtime/ternary_runtime.c:60-84 | reading finds exactly that part, token for token, and whether the end was reached |
| Parser.SeparatorIff | runtime/ternary_runtime.c:63-70 | blanks, tabs, line ends, vertical tabs, form feeds and commas are skipped; no other character but 0 and 1 stands alone |
| Parser.OneToken | runtime/ternary_runtime.c:71-84 | 1 and +1 give the word of 1, 0 that of 0, -1 that of -1 |
| Parser.StepExact | runtime/ternary_runtime.c:87-95 | the guard rejects overflow on the token's side exactly, and the undefined steps are exactly those past the other bound |
| Parser.AccumulateExact | runtime/ternary_runtime.c:87-95 | accumulation is defined and accepted iff every prefix fits, and then gives the numeral's value |
| Parser.FortyFit | runtime/ternary_runtime.c:87-95 | up to forty tokens never overflow and are never rejected |
| Parser.FortyOneMayNot | runtime/ternary_runtime.c:87-95 | forty -1 and a 0 pass the guard and overflow; forty-one 1 are rejected |
| Parser.TernaryParseBtStr | runtime/ternary_runtime.c:55-102 | for every string: the first overflow decides, then a fault or an empty literal rejects, else the value |
| Parser.ParsedIff | runtime/ternary_runtime.c:55-102 | a string is accepted iff the grammar writes it with a token and every prefix fits, and its value is the numeral's |
| Parser.BtStrT32 | runtime/ternary_runtime.c:715-721 | the helper returns the encoded value, word 0 for a rejected literal |
| Parser.LiteralResult | runtime/ternary_runtime.c:715-721 | the helper on any string, from the grammar: the numeral's word while every prefix fits and the literal ends with a token read; word 0, the lowest value, for a malformed or empty literal or a first overflow on the token's own side; no defined result for one on the other side |
| Parser.UndefinedIff | runtime/ternary_runtime.c:87-95 | the helper has no defined result iff the first overflow is on the other side |
| Parser.LiteralPlacesTokens | runtime/ternary_runtime.c:715-721 | a literal of 1 to 40 tokens puts the i-th token from the right at trit i, 0 beyond, dropping what exceeds 32 |
| Parser.PrintThenRead | runtime/ternary_runtime.c:715-721 | printing a word's trits and reading them gives its canonical form, the word itself iff it is canonical |
| Constants.TernaryValueFitsTrits | src/ternary_plugin.cpp:442-455 | the loop computes the range test without overflow; its early exit is never taken |
| Constants.RangeTestExact | src/ternary_plugin.cpp:442-455 | the test equals magnitude at most (3^n-1)/2 on all of int64_t iff n is not 40 |
| Constants.PackExact | src/ternary_plugin.cpp:457-489 | on every type: packed are exactly the ternary constants of at most 32 trits that the trits can hold, to their word |
| Constants.TernaryPackConstant | src/ternary_plugin.cpp:457-489 | packs exactly the ternary constants of at most 32 trits that fit int64_t and pass the range test |
| Constants.TernaryUnpackConstant | src/ternary_plugin.cpp:491-512 | decodes exactly the ternary constants of at most 32 trits that fit 64 bits unsigned |
| Constants.UnpackPack | src/ternary_plugin.cpp:457-512 | packing accepts a value iff it is in range, and unpacking inverts it |
| Constants.RepackRefused | src/ternary_plugin.cpp:286-292 | the word packed for k is refused by a second packing iff k is at least 3^25 above the lowest value |
| Constants.RepackRefusedAbove | src/ternary_plugin.cpp:286-292 | so it is refused for every k from -(3^31-1)/2 up |
| Constants.LowestRepacks | src/ternary_plugin.cpp:457-489 | the lowest value packs to 0, which packs again to another word |
| Folding.GimpleAssign.FoldTernary | src/ternary_plugin.cpp:987-1106 | the block replaces the right-hand side by what Fold gives and counts it, or leaves both alone |
| Folding.ConstantsFold | src/ternary_plugin.cpp:1036-1074 | two constants fold iff 32 trits hold the exact sum, difference or product, quotients, remainders and negations always, each to the word of the result; no other code folds |
| Folding.NegationFolds | src/ternary_plugin.cpp:1036-1044 | a negated constant always folds to the word of the negated value |
| Folding.VariableFolds | src/ternary_plugin.cpp:1077-1106 | with a variable first only x + 0, x - 0, x * 1 fold, to x, and x * 0, to the zero word |
| Folding.OthersStay | src/ternary_plugin.cpp:1036-1106 | a constant before a variable folds only under negation; copies and other codes never |
| Folding.FoldAgrees | src/ternary_plugin.cpp:1035-1106 | the replacement is the word the matching helper returns on the packed operands, in every run, iff a variable passed through is canonical |
| Folding.PassedVariableDiffers | src/ternary_plugin.cpp:1035-1054 | x + 0 with x all spare codes folds to x, which is not the helper's word |
| Folding.FoldByZero | src/ternary_plugin.cpp:1056-1059 | division and remainder by a zero constant fold to the zero word |
| Folding.RawLiteralNegative | src/ternary_plugin.cpp:1159-1165 | an unpacked in-range literal decodes to a negative value |
| Folding.UnfoldedLiteralDiffers | src/ternary_plugin.cpp:1159-1165 | an emitted add with an unpacked literal never gives the sum with the literal's value |
| Lowering.ConvertKeepsZero | src/ternary_plugin.cpp:330-332 | conversion to long long keeps conditions of at most 64 bits zero or non-zero |
| Lowering.LowerShape | src/ternary_plugin.cpp:267-379 | the type is kept, results are packed at most once, only fresh temporaries are written, and result and node hold no others |
| Lowering.LowerIdentity | src/ternary_plugin.cpp:348-399 | an expression without conditionals is left alone and nothing is emitted |
| Lowering.OneConditional | src/ternary_plugin.cpp:267-345 | what exactly becomes of a conditional over operands without conditionals: the branch taken, the common branch, tt2b and select, select with or without conversion, or the node itself, by the types |
| Lowering.GuardedUntouched | src/ternary_plugin.cpp:355-360 | a side-effecting operator is returned as it is, whatever it holds: nothing emitted, overwritten or counted |
| Guarding.GuardsKept | src/ternary_plugin.cpp:348-379 | for every expression: each outermost side-effecting operator in the result and in the emitted calls is one of the source, whole, and the node keeps exactly those of the source; so no conditional beneath one is ever replaced |
| Guarding.SearchExact | src/ternary_plugin.cpp:381-404 | the search finds a conditional iff one stands somewhere in the expression |
| Lowering.Lowerer.LowerCondExprTree | src/ternary_plugin.cpp:267-346 | the method appends exactly the specified statements, advances the temporaries, counts visits and selects, and leaves the node as specified |
| Lowering.Lowerer.Select | src/ternary_plugin.cpp:294-345 | the same for the part after the operands are lowered and packed |
| Lowering.Lowerer.LowerCondExprInTree | src/ternary_plugin.cpp:348-379 | the same for any expression, skipping side-effecting ones that hold a conditional |
| Lowering.Lowerer.LowerOperands | src/ternary_plugin.cpp:365-377 | the operand loop lowers the operands left to right |
| Residue.StaticExact | src/ternary_plugin.cpp:267-379 | what an operand, or the node it leaves, becomes without temporaries is predicted from the source exactly: there is a prediction iff the lowered result holds no temporary, and then it is that result |
| Residue.CondStatic | src/ternary_plugin.cpp:294-313 | so are the pass's two tests: whether the lowered condition is a known constant, and whether the lowered branches are equal |
| Residue.SurvivesExact | src/ternary_plugin.cpp:334-336 | a conditional remains in the result iff one is reached that has no helper, no known condition and different branches |
| Residue.CallsFlatExact | src/ternary_plugin.cpp:313-341 | exactly when a conditional remains in an operand of an emitted call |
| Residue.HelpedGone | src/ternary_plugin.cpp:334-341 | with all helpers none remains, in the result or in the calls |
| Residue.LowerTwice | src/ternary_plugin.cpp:348-379 | when none remains, a second pass changes nothing |
| Preservation.KnownZeroExact | src/ternary_plugin.cpp:294-309 | a constant condition is always known and read by its logical value |
| Preservation.ChooseMeaning | src/ternary_plugin.cpp:294-345 | dropping a known condition, merging equal branches, and tt2b with select compute the conditional's choice; without a helper the result is worth what its node is |
| Preservation.LowerDelivers | src/ternary_plugin.cpp:267-379 | for every operand, literals and missing helpers included: after the statements the result is worth Delivered and the node it leaves is worth Left, both read off the source |
| Preservation.DroppedDelivers | src/ternary_plugin.cpp:294-314 | a dropped conditional delivers what its branch does |
| Preservation.IntactMeans | src/ternary_plugin.cpp:267-379 | Delivered is the meaning when no surviving conditional tests a 32-trit variable or operation |
| Preservation.LoweringPreservesMeaning | src/ternary_plugin.cpp:267-379 | for every well-formed expression and every meaning of its operators the emitted calls and the rewritten expression give the original value if no survivor misreads a 32-trit condition; when all helpers exist none does and no conditional remains |
| Preservation.IntactExact | src/ternary_plugin.cpp:334-336 | that condition holds iff each operand survivors leave as it is reads right in every world |
| Preservation.LeafExact | src/ternary_plugin.cpp:334-336 | an operand left in a survivor reads right in every world iff it is not a 32-trit variable or operation, nor a refused literal that is a word for zero |
| Preservation.LiteralTest | src/ternary_plugin.cpp:286-292 | a literal left raw in a survivor's condition reads right iff it is in range or its word is not zero |
| Preservation.SurvivorExact | src/ternary_plugin.cpp:334-336 | a survivor with sound branches is right in a world iff it tests what the source tests, or the branches mean the same |
| Preservation.SurvivorIff | src/ternary_plugin.cpp:334-336 | `c ? y : z` without a helper keeps its meaning in every world iff the condition of the theorem holds |
| Preservation.SurvivorFails | src/ternary_plugin.cpp:334-336 | on a 32-trit variable and two long double variables it does not |
| Preservation.InnerLiteralExact | src/ternary_plugin.cpp:286-336 | for `(b ? 0 : x) ? y : z`: the raw literal 0 reads right, the 32-trit x may not |
| Trapping.TrapsPredicted | src/ternary_plugin.cpp:267-379 | for every operand: whether the emitted statements trap, whether what is left of the expression does, and whether its node does, is decided exactly by three conditions on the source |
| Trapping.TrapFreeExact | src/ternary_plugin.cpp:267-379 | the lowered code of an expression is free of traps iff Exec and Resid hold of it |
| Trapping.StrictIsSafe | src/ternary_plugin.cpp:334-341 | if no operation of either branch of any conditional traps, the lowered code does not trap |
| Trapping.SafeIffStrict | src/ternary_plugin.cpp:267-345 | when every conditional has a helper and is not dropped, the lowered code is free of traps iff both branches of every conditional are |
| Trapping.CountersAlike | src/ternary_plugin.cpp:272-345 | the pass counts as many selects as conditionals visited iff every conditional has a helper and is not dropped |
| Trapping.LazyIsNotSafe | src/ternary_plugin.cpp:334-341 | it is not enough that the taken branches do not trap |
| Trapping.SafeIsNotStrict | src/ternary_plugin.cpp:294-311 | nor is it needed that both branches do not |

## Left out

- Lowering.Lowerer.LowerCondExprInTree: trees are values, so a node shared by two parents is lowered once for each; in the source it is overwritten once. What an in-place write leaves in a node is returned beside the result.
- Preservation.LoweringPreservesMeaning: conditions of 32 trits or of integers up to 64 bits, no side effects, a packable ternary literal only as an operand of a conditional. Its condition Intact is exact operand by operand (IntactExact) and for the survivors of SurvivorIff; a misread operand in a branch that is never taken, or between branches that mean the same, does no harm, and Intact does not look for those: finding them means deciding which combinations of conditions are satisfiable.
- Residue.CondStatic: operand_equal_p is taken as equality of the two trees; it belongs to GCC and is not part of this model.
- Trapping.StrictIsSafe: where a helper is missing, asks that no conditional misreads its condition, dropped ones included, since operations may trap on other values than the source gives them; the exact condition is Trapping.TrapFreeExact.
- Folding.FoldAgrees: assignments whose operands all have the 32-trit type; mixed-type operands and constant conversions leave the block before it folds.
- Runtime.MulT: no claim for products beyond int64_t, which C leaves undefined.
- Wide.AddWide: the remaining 64-trit helpers repeat the same decode, compute, encode pattern; the tritwise ones are covered by the methods for any width.
- Conditional assignments handled directly by the pass (src/ternary_plugin.cpp:866-950) make the same choices on operands that are not nested.
- The three 128-trit helpers written for a 256-bit type, vector lanes, scalar int helpers, select helpers by width, load and store: the same loops or one-line bodies.
- tlimp, tequiv, txor on packed words and tnet: truth tables or one call of decode, and docs/MASTER_ISA.md:47-58 describes other tables for two of them.
- Float conversions, float selects and quantisation: IEEE arithmetic.
- GCC plumbing: options, pass registration, declarations and their caches, diagnostics, builtin calls by name.
