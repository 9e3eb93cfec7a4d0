# A Dafny model of the wasm2uwasm converter and the wabt code under it

The repository turns WebAssembly modules into uWASM, a register code, on top of a copy of wabt. This
project models the parts of it where a small slip would be silent, and proves what they are for. All
statements are over every input, every run or every bit pattern that the code handles, but for what stands
under "Left out".

* **Numeric literals** (`src/literal.cc`): `IntLiteral.dfy`, `Uint128.dfy`, and for floats `FloatFormat.dfy` (the
  two formats, the value of a bit pattern in units of the smallest subnormal, and "nearest, ties to even" as a
  choice among all magnitudes with infinity in its place, after section 4.3.1 of IEEE 754-2019),
  `FloatRounding.dfy`, `HexRounding.dfy`, `HexScan.dfy` (the loops over significand and exponent), `HexExponent.dfy`
  (the exponent as read and as written), `FloatParser.dfy`, `FloatLiteral.dfy`, `FloatWriter.dfy`,
  `FloatRoundTrip.dfy`, `HexLimits.dfy`. `LiteralText.dfy`, `FloatText.dfy` and `FloatSigns.dfy` say in plain
  characters what digits of either case, signs, underscores, dots and exponents mean, and what is written. The text
  format is that of sections 6.3.1 and 6.3.2 of the WebAssembly Core Specification 1.0. C++ words are natural
  numbers with every truncation written out; shifts and masks are divisions and remainders by powers of two
  (`Arith.dfy`).
* **LEB128** (`src/leb128.cc`, `reader.cpp`): `Leb128.dfy`, against the recursive grammar of section 5.2.2 of the
  WebAssembly Core Specification 1.0, and `Reader.dfy`, the converter's second reader.
* **UTF-8 and local types** (`src/utf8.cc`, `src/ir.cc`, `src/ir.h`): `Utf8.dfy`, against sections 3 and 4 of
  RFC 3629, and `LocalTypes.dfy`.
* **The intrusive list** (`src/intrusive-list.h`): `IntrusiveList.dfy`, on the heap. A ghost sequence of nodes
  is the list's meaning; a ghost index beside an iterator says where it stands.
* **Expression trees** (`src/expr-visitor.cc`, `src/binary-reader-ir.cc`): `Exprs.dfy` has the trees and the plain
  recursive traversal, `ExprVisitor.dfy` the walk with three stacks, `ExprEvents.dfy` the stack of half-built
  constructs that flat events stand for, `LabelStack.dfy` the reader's label stack over lists that other expressions
  own (a pointer to a list is its place in an arena), `ExprRoundTrip.dfy` the two together. `ExprReplay.dfy` reads
  callbacks back by hook: which delegate function is called for which expression, and where.
* **The translation to uWASM** (`convertor.cpp`, `convertor.h`, `ubh.cpp`, `uwinst.cpp`, `executor.cxx`):
  `BlockTree.dfy` (the block hierarchy), `Branches.dfy` (the branch resolver), `Uwinst.dfy` (operand fields in
  the instruction words, lowest bit first), `Executor.dfy`, `Converter.dfy`, and `Simulation.dfy`, which
  proves that running the translated code does what WebAssembly says.

Where the source's assertions fail (`Is_True`, `AssertThat`) the model returns `Error`; so it does where the source
would read past its operands, its stack or its memory.

Several promises hold only on part of the inputs. Each is proved with its exact condition:

* With the exponent it reads, `ParseHex` rounds to nearest exactly when `HexExponent.HexMisrounds` is false: a
  condition on the significand as scanned, the exponent and the flag. Otherwise the result is the number below.
  `HexLimits.MisroundedLiteral` is such a literal. A number the format can represent is never misrounded
  (`FloatParser.ExactNeverMisrounds`), and neither is one whose digits have at most kSigBits significant bits
  (`FloatParser.FittingIsRight`).
* The exponent loop may stop before the last digit; then at least ten times as much is written as was read
  (`HexExponent.UnreadDigits`). With the exponent as written, `ParseHex` rounds to nearest exactly when
  `HexExponent.RightAsWritten` holds. Where a digit is left unread and the two exponents differ, that means: after
  `+` always (`HexExponent.PlusStopsSafely`); without a sign, when the number read overflows already or the number
  written rounds to zero; after `-`, when the number read comes out as zero, or when the exponents are one apart and
  the number read lies strictly between one and one and a half smallest subnormals. `HexLimits.ExponentCutShort` and
  `HexLimits.UnsignedCutShort` are literals read wrong, `0x1p-1490` as the smallest subnormal and `0x0.1p1280` as
  2^124.
* `ParseUint128` returns the value written exactly when that is below 2^128 (`Uint128.ExactBelowTwo128`). A decimal
  is rejected exactly when at some digit ten times the digits before it, modulo 2^128, plus the digit reaches
  2^128 (`Uint128.RejectedExactly`), which some literals never do (`Uint128.OverflowUnnoticed`).
* The converter's LEB128 reader does not sign-extend: it recovers a constant exactly when it is non-negative or
  its encoding fills five bytes (`Reader.AgreesWithReadS32`, `Reader.ReadsConstant`).
* A range can be spliced to any place of its own list outside it, but not right behind itself when it has two
  elements or more: then the loop does not end (`IntrusiveList.List.Splice`, `IntrusiveList.SpliceNeverEnds`).
* A branch's label is WebAssembly's target exactly when the branch does not leave the first arm of an `if` that has an
  `else` (`Branches.LabelIsWasmTarget`; `Branches.IntoTheElse` is an instance).
* At an `if` the resolver names the first instruction of the `else` arm, or the one past the end when there is none
  (`Branches.IfSkipsFirstArm`). At the `else` itself it answers that no label is needed, because the block of the `if`
  ends there (`Branches.OthersNeedNoLabel`): the jump over the `else` arm that the source has in mind
  (`convertor.cpp:57-66`) is never made, and the first arm runs on into the second. At a `block` an assertion fails.
* The hierarchy of any list, balanced or not, is built exactly when no `else` stands where the innermost open block
  is no `if` (`BlockTree.FailsAtStrayElse`).
* The executor's i64.add is right exactly when the sum fits in 32 bits (`Executor.LongSumIsCut`).
* An instruction of the straight-line fragment is simulated from every matching state in which it steps exactly when
  it is neither a negative constant of fewer than five bytes nor a store whose offset is not zero and fits the 64
  KiB memory (`Simulation.KeptExactly`; `Simulation.FailingStore` is an instance).

The main results:

* `FloatRoundTrip.RoundTrip`: writing a bit pattern as text and parsing it returns the pattern, for every pattern of
  both formats.
* `FloatParser.ParseHex`: what a hexadecimal float is read as, against the number nearest to it, for the exponent as
  read and as written.
* `Uint128.RoundTrip`, `Leb128.RoundTripU32`, `RoundTripS32`, `RoundTripS64` and `RoundTripFixed`: the other pairs of
  writer and reader; `Leb128.ReadU32MatchesGrammar` and its kin: the readers accept exactly the grammar.
* `Utf8.ValidMatchesStandard` and `Utf8.EncodeInjective`: the validator accepts exactly the standard's strings, each of
  which decodes in one way.
* `ExprVisitor.VisitExpr`: the walk with explicit stacks is the recursive traversal, driven to its first failure.
* `LabelStack.BinaryReaderIR.ReadBody` and `ExprRoundTrip.Rebuild`: the reader's label stack refines the stack of open
  constructs, and rebuilds every body from the visitor's callbacks.
* `IntrusiveList.List.Splice` and the other list operations: what the list holds afterwards, with every link right.
* `BlockTree.TreeShape`, `Branches.ResolvesToOpenBlock` and `Branches.LabelIsWasmTarget`: the block hierarchy of every
  balanced body, and where its branches lead.
* `Simulation.KeptExactly` and `Simulation.ConvertAndExecute`: which instructions keep their meaning in
  translation, and that a body of them, translated and executed, does what WebAssembly says.

## Model

| member | source | states |
|---|---|---|
| IntLiteral.ParseDigits | src/literal.cc:580-616 | the loop with its division-based overflow test accepts exactly the digit strings, underscores anywhere, whose value is at most 2^64 - 1 |
| IntLiteral.ParseUint64 | src/literal.cc:573-620 | Ok exactly on decimal and 0x literals of value at most 2^64 - 1, with that value |
| IntLiteral.ParseInt | src/literal.cc:718-749 | at width n: Ok exactly on [-2^(n-1), 2^n - 1] (no sign allowed, and no negative value, when unsigned only), with the value modulo 2^n |
| IntLiteral.ParseInt64 | src/literal.cc:622-647 | the same at width 64, where the digits' outcome is looked at last |
| IntLiteral.ValueGrows | src/literal.cc:593-613 | a literal's value never shrinks as digits are added, so a prefix over the limit condemns the whole |
| LiteralText.HexdigitIs | src/literal.cc:559-571 | a character is the hexadecimal digit d exactly when it is the d-th of 0123456789abcdef or of 0123456789ABCDEF |
| LiteralText.DecimalDigitIs | src/literal.cc:605-605 | and the decimal digit d exactly when it is the d-th of 0123456789 |
| LiteralText.CaseOfValue | src/literal.cc:559-599 | changing the case of digits changes no value |
| LiteralText.CaseOfMantissa | src/literal.cc:267-300 | nor what the mantissa of a float is worth or how it is scanned |
| LiteralText.UnderscoreIgnored | src/literal.cc:587-613 | nor does an underscore put anywhere |
| LiteralText.UnsignedAccepted | src/literal.cc:573-620 | accepted are exactly 0x with hexadecimal digits, and decimal digits, each with underscores |
| LiteralText.SignedAccepted | src/literal.cc:622-647 | and the same behind one sign |
| LiteralText.SignsMean | src/literal.cc:622-647 | behind a plus a literal is worth the same, behind a minus its negative |
| LiteralText.HexTextValue | src/literal.cc:573-599 | 0x and the digits of v, in either case, are worth v |
| LiteralText.IntegerTextValue | src/literal.cc:573-647 | the decimal text of any integer is worth that integer, with a minus, with a plus or with no sign |
| Uint128.Mul10 | src/literal.cc:656-676 | the four limbs are ten times what they were, modulo 2^128 |
| Uint128.AddDigit | src/literal.cc:694-706 | a digit is added across all limbs, and the carry out of the top one is returned |
| Uint128.ParseUint128 | src/literal.cc:679-715 | Ok exactly on non-empty digit strings where no digit's addition carries out of the top limb, with the value the limbs wrap to |
| Uint128.WrappingIsDecimal | src/literal.cc:679-715 | what is accepted is right modulo 2^128, and what is rejected is no decimal below 2^128 |
| Uint128.ExactBelowTwo128 | src/literal.cc:679-715 | the reader returns the value written exactly when that is below 2^128 |
| Uint128.RejectedExactly | src/literal.cc:679-715 | a decimal is rejected exactly when at some digit ten times the value of the digits before it, modulo 2^128, plus that digit reaches 2^128 |
| Uint128.OverflowUnnoticed | src/literal.cc:675-675 | a literal of value at least 2^128 that is accepted with a wrong value |
| Uint128.DivideByTen | src/literal.cc:800-810 | one pass over the limbs, the remainder carried down, divides the 128-bit number by ten and leaves the last digit |
| Uint128.WriteUint128 | src/literal.cc:794-828 | writes the decimal digits, most significant first, cut to the buffer and terminated |
| Uint128.DecimalOfToDecimal | src/literal.cc:794-828 | the digits written have the number as their decimal value |
| Uint128.RoundTrip | src/literal.cc:679-828 | every 128-bit number's decimal text is read back as that number |
| FloatFormat.TraitsAsShifts | src/literal.cc:39-105 | the traits' masks and shifts in terms of significand size and width, for both formats |
| FloatFormat.MakeIsOr | src/literal.cc:181-188 | the fields side by side are the source's shifted fields or-ed together, for every sign, exponent and significand its asserts allow |
| FloatFormat.UnitsMono | src/literal.cc:39-105 | magnitudes are ordered as their values: larger bits, larger number |
| FloatFormat.NearestUnique | src/literal.cc:192-203 | at most one magnitude is nearest with ties to even |
| FloatFormat.NearestExact | src/literal.cc:192-203 | a representable number is its own nearest |
| FloatFormat.NearestOverflow | src/literal.cc:396-400 | from infinity's place upwards, infinity is the one nearest |
| FloatFormat.NearestScale | src/literal.cc:344-346 | nearness does not depend on the units the number is given in |
| FloatRounding.ShiftAndRoundIsHalfToEven | src/literal.cc:192-203 | the rounding shift is half-to-even exactly when its flag says whether anything below the half bit is non-zero, or the half bit is clear, or the quotient is odd |
| FloatRounding.ShiftAndRoundCarries | src/literal.cc:192-203 | the rounding shift adds one to the quotient exactly when the half bit is set and the quotient is odd or the flag is up |
| FloatRounding.NearestIsRounded | src/literal.cc:344-403 | rounding the shifted significand half-to-even yields the nearest magnitude, also across a carry into the exponent |
| HexRounding.NormalRounds | src/literal.cc:384-403 | the normal branch encodes the correctly rounded number, or the one below it exactly on Misrounds, and errors at kMaxExp |
| HexRounding.SubnormalRounds | src/literal.cc:348-383 | the subnormal branch, with its two shifts and its underflow to zero, encodes the correctly rounded number, or the one below it exactly on Misrounds |
| HexRounding.TwoStepRounding | src/literal.cc:357-372 | cutting twice rounds as cutting once would, or falls one short exactly on a half plus the highest of the bits cut first, the flag down and the quotient even |
| HexRounding.ReadMagRight | src/literal.cc:344-405 | the magnitude arrived at encodes as the correctly rounded one exactly when it is not one of Misrounds |
| HexScan.ScanIsValue | src/literal.cc:267-300 | the significand, exponent and flag left by the scan account for every digit: value = significand * 16^k + rest |
| HexScan.ScanMantissa | src/literal.cc:267-300 | the loop stops at the first character that is no digit, dot or underscore and leaves the scan's state |
| HexScan.ParseExponent | src/literal.cc:308-342 | the signed exponent as read |
| HexExponent.WholeExponentIsFull | src/literal.cc:326-342 | an exponent read to the end is the one written |
| HexScan.TrueMagIsNearest | src/literal.cc:344-403 | what rounding the scanned state ideally gives is what is nearest to the literal's digits |
| HexExponent.OverflowsIs | src/literal.cc:396-400 | a number rounds to infinity, and is read as infinity, exactly from half a last place below 2^kMaxExp on |
| HexExponent.VanishesIs | src/literal.cc:348-382 | a number rounds to zero exactly up to half the smallest subnormal, and is read as zero there and where it is misrounded at that exponent |
| HexExponent.BelowReadMag | src/literal.cc:344-405 | from two smallest subnormals on, any smaller exponent means a number strictly below the one read |
| HexExponent.UnreadDigits | src/literal.cc:326-337 | when a digit is left unread, at least ten times as much was written, and the test of the early stop holds |
| HexExponent.ReadIsWritten | src/literal.cc:308-342 | the exponent read is the one written exactly when no digit is left or all are zeros |
| HexExponent.AgreesIs | src/literal.cc:308-405 | what is read at one exponent is what is nearest at another exactly under the stated inequalities on significand and exponents, going up and going down |
| HexExponent.WrittenIsRead | src/literal.cc:308-405 | what is read is nearest to the literal as written exactly when RightAsWritten holds |
| FloatParser.RoundHex | src/literal.cc:344-405 | in every branch the correctly rounded number, or the one below it exactly on Misrounds |
| FloatParser.ParseHex | src/literal.cc:253-406 | with the exponent read: the nearest value, ties to even, or an error when that is infinity, exactly when HexMisrounds is false, and otherwise the number below; with the exponent written: the nearest exactly when RightAsWritten holds |
| FloatParser.FittingIsRight | src/literal.cc:277-405 | digits of at most kSigBits significant bits and an exponent read to its end are always rounded to nearest |
| FloatParser.ExactNeverMisrounds | src/literal.cc:344-403 | a literal whose number the format represents is not misrounded |
| FloatParser.ExactIsNearest | src/literal.cc:344-403 | and what is nearest to it is that number |
| FloatLiteral.ParseNan | src/literal.cc:207-249 | the NaN with its sign and tag, the quiet tag when none is given, exactly for tags from 1 to the significand mask |
| FloatLiteral.Parse | src/literal.cc:426-453 | a hex float is read as ParseHex promises; infinity and NaN give their patterns or, for a bad tag, an error |
| FloatText.HexLiteral | src/literal.cc:253-342 | how a hex float comes apart: its sign, its mantissa, the exponent as written with p or P and any sign, and the start of the early-stop test |
| FloatText.HexForm | src/literal.cc:253-342 | there are no hex floats of another form |
| FloatText.MantissaWorth | src/literal.cc:267-300 | the mantissa's digits are worth what they are without the dot, and each digit behind the dot counts as one of the fraction |
| FloatText.ExponentStops | src/literal.cc:326-337 | the exponent is read up to the first digit at which the number so far, with the dot's part, reaches 128 or 1024 |
| FloatText.SpecialLiterals | src/literal.cc:207-425 | the signs and payloads of inf, nan and nan:0x literals |
| FloatSigns.PlusMeansNothing | src/literal.cc:207-425 | for every literal type, a leading plus changes nothing |
| FloatSigns.MinusAddsTheSign | src/literal.cc:207-425 | and a leading minus adds the sign bit to each outcome |
| FloatSigns.MinusReads | src/literal.cc:207-425 | so what is read behind a minus is what is read without it, with the sign bit |
| FloatSigns.OneOutcome | src/literal.cc:426-453 | the contract of Parse leaves one outcome for each literal |
| FloatWriter.WriteHex | src/literal.cc:457-555 | the text of a bit pattern, cut to the buffer and terminated |
| FloatWriter.FormatHex | src/literal.cc:463-547 | the text before it is copied: sign, then a number, a NaN with its tag, or infinity |
| FloatRoundTrip.TextHasShape | src/literal.cc:457-555 | the written text is a literal of the matching type |
| FloatRoundTrip.TextReadsBack | src/literal.cc:207-555 | whatever the parser may return on that text by its contract is the bit pattern |
| FloatRoundTrip.NormalIsExactly | src/literal.cc:497-547 | the digits written for a normal number are worth that number |
| FloatRoundTrip.SubnormalIsExactly | src/literal.cc:507-523 | the digits written for a subnormal number are worth that number |
| FloatRoundTrip.RoundTrip | src/literal.cc:207-555 | writing and parsing returns exactly the bits, for every bit pattern of both formats: normal, subnormal, zeros, infinities, every NaN |
| FloatText.SignWritten | src/literal.cc:467-473 | the sign bit is written as a minus before the text without it |
| FloatText.SpecialsWritten | src/literal.cc:474-503 | zero is 0x0p+0, the infinity inf, the quiet NaN nan, every other NaN nan:0x and its payload in lower-case digits without leading zeros |
| FloatText.NumberWritten | src/literal.cc:499-547 | every other number is 0x1, a dot and lower-case digits without trailing zeros unless the significand's bits are zero, p, a sign and a decimal exponent |
| HexLimits.MisroundedLiteral | src/literal.cc:357-360 | 0x8000009p+0 is misrounded as a float |
| HexLimits.ExponentCutShort | src/literal.cc:334-336 | 0x1p-1490 is read with exponent -149 and so, though not misrounded, wrong |
| HexLimits.CutShortShows | src/literal.cc:334-336 | no result is the nearest both for the exponent read there and for the one written |
| HexLimits.UnsignedCutShort | src/literal.cc:316-336 | 0x0.1p1280 is read with exponent 128 and so, though not misrounded, wrong |
| HexLimits.UnsignedShows | src/literal.cc:316-336 | only the overflow error is right for what is written there, and never for what is read |
| HexExponent.PlusStopsSafely | src/literal.cc:321-336 | after a plus sign a result is correct for the exponent read exactly when it is for the exponent written |
| Leb128.U32Leb128Length | src/leb128.cc:28-35 | the length of the encoding |
| Leb128.WriteU32Leb128 | src/leb128.cc:60-65 | writes the shortest encoding, at most five bytes |
| Leb128.WriteU32Leb128Raw | src/leb128.cc:86-95 | writes it in place, or returns 0 and writes nothing when there is no room |
| Leb128.WriteFixedU32Leb128Raw | src/leb128.cc:97-107 | five bytes, or 0 when there is no room |
| Leb128.WriteSigned | src/leb128.cc:109-131 | the loop for either sign writes the shortest signed encoding |
| Leb128.WriteS32Leb128 | src/leb128.cc:109-119 | at most five bytes |
| Leb128.WriteS64Leb128 | src/leb128.cc:121-131 | at most ten bytes |
| Leb128.EncodeUIsUnsigned | src/leb128.cc:60-65 | what the unsigned writer writes is an encoding of the value in the grammar of uN |
| Leb128.EncodeSIsSigned | src/leb128.cc:109-131 | what the signed writer writes is an encoding of the value in the grammar of sN |
| Leb128.EncodeULength | src/leb128.cc:28-35 | an encoding takes at most k bytes exactly when the value is below 2^(7k) |
| Leb128.EncodeSLength | src/leb128.cc:109-131 | a signed encoding takes at most k bytes exactly when the value is one of 7k bits |
| Leb128.LebBitsIsOr | src/leb128.cc:143-154 | adding the seven-bit pieces, as the readers are modelled, is or-ing them, as the source does, as far as the shifts stay within the type |
| Leb128.ReadU32MatchesGrammar | src/leb128.cc:161-188 | n > 0 and v are returned exactly when the first n bytes are a u32 encoding of v |
| Leb128.ReadS32MatchesGrammar | src/leb128.cc:190-224 | n > 0 and the pattern of v exactly when they are an s32 encoding of v |
| Leb128.ReadS64MatchesGrammar | src/leb128.cc:226-280 | n > 0 and the pattern of v exactly when they are an s64 encoding of v |
| Leb128.ReadersAcceptOnlyEncodings | src/leb128.cc:161-280 | a reader rejects exactly where no encoding stands |
| Leb128.RoundTripU32 | src/leb128.cc:60-188 | reading what was written, whatever follows, gives value and length |
| Leb128.RoundTripFixed | src/leb128.cc:97-188 | the same for the fixed width |
| Leb128.RoundTripS32 | src/leb128.cc:109-224 | the same for s32 |
| Leb128.RoundTripS64 | src/leb128.cc:121-280 | the same for s64 |
| Reader.ReadLeb128 | reader.cpp:4-13 | the sum of the shifted groups up to the first byte without the continuation bit |
| Reader.ReadOprSize | reader.cpp:16-22 | the number of bytes up to that byte, counted in eight bits |
| Reader.AgreesWithReadU32 | reader.cpp:4-22 | whatever wabt's u32 reader accepts, this reader reads with the same value and length |
| Reader.AgreesWithReadS32 | reader.cpp:4-22 | of what wabt's s32 reader accepts, it recovers exactly the non-negative values and five-byte encodings |
| Reader.ReadsUnsigned | reader.cpp:4-22 | it inverts the u32 writer |
| Reader.ReadsConstant | reader.cpp:4-13 | it inverts the s32 writer exactly on non-negative values and those below -2^27 |
| Utf8.IsValidUtf8 | src/utf8.cc:52-102 | the loop accepts what Valid accepts |
| Utf8.ValidMatchesStandard | src/utf8.cc:25-102 | accepted are exactly the concatenations of encodings of Unicode scalar values |
| Utf8.EncodeInjective | src/utf8.cc:25-102 | that decomposition is unique |
| LocalTypes.LocalTypes.Set | src/ir.cc:169-187 | the runs expand to the types given, with positive counts and different neighbours |
| LocalTypes.LocalTypes.AppendDecl | src/ir.h:635-639 | the expansion grows by count copies of the type |
| LocalTypes.LocalTypes.Size | src/ir.cc:189-193 | the length of the expansion |
| LocalTypes.LocalTypes.At | src/ir.cc:195-205 | the element of the expansion |
| LocalTypes.IterationMatches | src/ir.h:653-669 | iterating from begin to end visits the expansion |
| LocalTypes.CanonicalUnique | src/ir.cc:169-187 | runs with positive counts and different neighbours are determined by their expansion |
| LocalTypes.GetLocalType | src/ir.cc:207-216 | parameters first, then locals |
| IntrusiveList.List.PushBack | src/intrusive-list.h:445-459 | the sequence with the node at the end |
| IntrusiveList.List.Insert | src/intrusive-list.h:513-536 | the sequence with the node before the iterator, and the iterator at the node |
| IntrusiveList.List.Extract | src/intrusive-list.h:545-568 | the sequence without the node, which is unlinked |
| IntrusiveList.List.Erase | src/intrusive-list.h:570-576 | the sequence without the element; the iterator after it is returned |
| IntrusiveList.List.EraseRange | src/intrusive-list.h:578-585 | the sequence without the range |
| IntrusiveList.List.SpliceOne | src/intrusive-list.h:615-620 | one element moved to another list, or within its own to any place but in front of itself |
| IntrusiveList.List.Splice | src/intrusive-list.h:622-629 | a range moved, in order, in front of an iterator of another list or of its own outside the range; right behind the range it may hold one element; the elements of the two lists together are unchanged |
| IntrusiveList.SpliceNeverEnds | src/intrusive-list.h:622-629 | a range of two elements or more spliced right behind itself: after any number of turns the iterator stands at an element that is not the last, so the loop never ends |
| IntrusiveList.List.SpliceAll | src/intrusive-list.h:605-613 | a whole list moved, leaving it empty; a list of one element or none put in front of its own end stays as it is |
| IntrusiveList.List.Clear | src/intrusive-list.h:594-603 | every node is visited once, in order, and the list is empty |
| IntrusiveList.List.Swap | src/intrusive-list.h:587-592 | the two sequences trade places |
| IntrusiveList.List.MoveFrom | src/intrusive-list.h:293-304 | the other list's nodes are taken over and it is left empty |
| IntrusiveList.SpliceConserves | src/intrusive-list.h:622-629 | a splice neither loses nor copies an element |
| IntrusiveList.InsertMirrored | src/intrusive-list.h:524-533 | after relinking, every link of the new sequence names its neighbour |
| IntrusiveList.ExtractMirrored | src/intrusive-list.h:553-565 | after unlinking, every link of what is left names its neighbour |
| ExprVisitor.ExprVisitor.VisitExpr | src/expr-visitor.cc:26-124 | the callbacks made and the result are those of the recursive traversal driven up to its first failure |
| ExprVisitor.ExprVisitor.HandleDefaultState | src/expr-visitor.cc:136-394 | exactly the popped expression's opening callback is made and, unless it fails, its list is what is done next |
| ExprVisitor.ExprVisitor.HandleListState | src/expr-visitor.cc:43-118 | before the end of the list no callback is made and the next element is up; at its end exactly the callbacks that close it are made |
| ExprVisitor.ExprVisitor.FinishTry | src/expr-visitor.cc:93-109 | the catch callback, and when the catch list is empty the end callback at once unless the first one failed |
| ExprVisitor.ExprVisitor.VisitExprList | src/expr-visitor.cc:126-134 | the same for a list of expressions and a function |
| ExprVisitor.DriveStopsAtFirstFailure | src/expr-visitor.cc:26-124 | all callbacks were made, or exactly the first k, and the k-th is the first that failed |
| ExprReplay.TreeHeard | src/expr-visitor.cc:43-394 | a reader on which each delegate function opens, divides and closes only its own kind of expression hears the traversal of a tree as that tree |
| ExprReplay.HeardExactly | src/expr-visitor.cc:43-394 | a sequence of callbacks is heard as a list of trees exactly when it is that list's traversal |
| ExprVisitor.NextPushed | src/expr-visitor.cc:46-48 | advancing an iterator and pushing its element leaves the same work to do |
| ExprEvents.FeedTree | src/binary-reader-ir.cc:694-809 | reading the walk of a tree appends that tree and leaves the stack as deep as it was |
| ExprEvents.FeedTreeList | src/binary-reader-ir.cc:694-809 | the same for a list |
| ExprEvents.ReadAs | src/binary-reader-ir.cc:694-999 | which events are read as which expression, event by event |
| ExprEvents.ReadWithoutSecond | src/binary-reader-ir.cc:764-809 | an if ended without else, or a try without catch, has an empty second arm |
| ExprEvents.WalkInjective | src/expr-visitor.cc:26-124 | different trees have different walks |
| ExprEvents.WalkOfRead | src/binary-reader-ir.cc:694-809 | walking what an accepted body was read into gives its events back, with left-out second arms spelled out |
| ExprEvents.FlatFeed | src/binary-reader-ir.cc:694-809 | one accepted event adds itself to what is held, and nothing else |
| LabelStack.BinaryReaderIR.OnElse | src/binary-reader-ir.cc:764-780 | turns to the else arm under an if, and otherwise fails and changes nothing |
| LabelStack.BinaryReaderIR.OnCatch | src/binary-reader-ir.cc:985-999 | turns to the catch list under a try, and otherwise fails and changes nothing |
| LabelStack.BinaryReaderIR.OnEnd | src/binary-reader-ir.cc:782-809 | closes the top construct, its casts matching, and fails when only the function is open |
| LabelStack.BinaryReaderIR.OnEvent | src/binary-reader-ir.cc:640-1010 | every event, failing ones included, keeps the label invariant and refines the stack of open constructs |
| LabelStack.BinaryReaderIR.ReadBody | src/binary-reader-ir.cc:640-1010 | a body's events refine the run on open constructs |
| LabelStack.LabelsOwned | src/binary-reader-ir.cc:309-346 | the bottom label is Func, and each higher label's construct is the last expression of the list below, its list the arm its type names |
| LabelStack.KindsMatch | src/binary-reader-ir.cc:309-346 | labels and open constructs correspond, kind by kind from the bottom, and only the bottom one is Func |
| LabelStack.LeafAppended | src/binary-reader-ir.cc:348-354 | appending through the top label leaves every other construct's tree alone |
| LabelStack.ConstructOpened | src/binary-reader-ir.cc:694-701 | making a construct and labelling its list opens it |
| LabelStack.SecondArm | src/binary-reader-ir.cc:764-999 | moving the label to the second list keeps the first as it was read |
| LabelStack.Closed | src/binary-reader-ir.cc:782-809 | popping the label leaves the construct's tree at the end of the list below |
| ExprRoundTrip.Rebuild | src/expr-visitor.cc:26-134 | the visitor's callbacks fed to the label-stack reader rebuild the body, and one label is left |
| BlockTree.BuildBlockHierarchy | convertor.cpp:128-185 | the block vector is that of the scan, or an assertion fails |
| BlockTree.ScanShape | convertor.cpp:128-215 | at every instruction of a balanced list the blocks keep their shape and the work stack has the kinds of the open constructs |
| BlockTree.TreeShape | convertor.cpp:128-215 | for every balanced list: all blocks closed, parents before and around their children, siblings in order and meeting only at an else; each block but the placeholder and the function was opened by the instruction it starts at and has its kind, and each opener opened such a block |
| BlockTree.OneBlockEach | convertor.cpp:200-215 | no two blocks start at one instruction |
| BlockTree.KindOpened | convertor.cpp:145-172 | a block's kind tells the instruction that opened it |
| BlockTree.FailsAtStrayElse | convertor.cpp:140-185 | for any list, balanced or not: an assertion fails exactly when some else stands where the innermost open block is no if, and the pc counts every instruction but the ends after everything is closed |
| BlockTree.ReadyForElse | convertor.cpp:159-166 | at an else, every block under the if's parent is over, the if is the last of them, and the parent is open and began before |
| Branches.GetLabelIndexForBranch | convertor.cpp:30-124 | the recursive search, its assertions and the label it adds |
| Branches.ResolvesToOpenBlock | convertor.cpp:30-124 | a branch out of n blocks resolves to the block n below the top of the work stack when it was scanned; one label is added, or an assertion fails when fewer are open |
| Branches.LabelIsWasmTarget | convertor.cpp:98-123 | the label's pc is WebAssembly's target, defined on the instruction list alone, exactly when the branch does not leave the first arm of an if with an else, which is also said of the instructions and is equivalent to what the block table shows |
| Branches.SomeWasmTarget | convertor.cpp:98-123 | every branch out of no more constructs than are open has a target in WebAssembly |
| Branches.OneWasmTarget | convertor.cpp:98-123 | and no branch has two |
| Branches.IntoTheElse | convertor.cpp:117-123 | a branch out of the first arm lands in the second |
| Branches.IfSkipsFirstArm | convertor.cpp:43-54 | at an if the label is the first instruction of the else arm, or the one past the end when there is no else, and is made for the block the if opened |
| Branches.OneEnd | convertor.cpp:43-54 | there is one such place |
| Branches.OthersNeedNoLabel | convertor.cpp:54-84 | no label is needed exactly at a loop, an else or an end; a block's start fails an assertion |
| Branches.LaterAt | convertor.cpp:128-215 | the rest of the scan only ends open blocks later and adds later ones |
| Uwinst.Written | uwinst.cpp:189-230 | writing a bit field writes it, cut to its width, and nothing around it |
| Uwinst.ThreeRegisters | uwinst.cpp:189-271 | all three registers are read back, cut to ten bits, and the opcode stays |
| Uwinst.RegisterOffset | uwinst.cpp:189-289 | register and 32-bit offset are read back |
| Uwinst.TwoRegistersOffset | uwinst.cpp:206-309 | registers and 20-bit offset are read back; an operand given as the third register is lost |
| Uwinst.LongWords | uwinst.h:77-115 | the two words of each 64-bit instruction, in numbers |
| Uwinst.OfsFallsThrough | uwinst.cpp:291-297 | the offset of the mode without registers is overwritten in part by its own low bits, and read back exactly when they agree |
| Uwinst.ShortWords | uwinst.h:35-67 | the word of each 32-bit instruction with a destination, in numbers |
| Executor.LoadStored | executor.cxx:57-70 | a stored word is loaded, and words elsewhere are unchanged |
| Executor.StoredBytes | executor.cxx:65-70 | a store puts the i-th byte of the word, from the low end, at the i-th address and keeps every other byte |
| Executor.WordBytes | executor.cxx:57-62 | a load is the sum of the bytes, the first the lowest |
| Executor.LongSumIsCut | executor.cxx:31-37 | 64-bit addition is addition modulo 2^32, and right exactly when the sum modulo 2^64 is below 2^32 |
| Executor.ReturnGoesOn | executor.cxx:48-53 | a return copies its register to register 2, and the code behind it is executed |
| Executor.UwasmFrame.ExecuteFunctionBody | executor.cxx:74-121 | the instructions in order, or a failure; 64-bit addition adds the low 32 bits of its operands; a return copies its register and does not stop |
| Converter.UbhCode.constructor | ubh.cpp:22-82 | parameter k gets the register of its type's count plus two; a local the next one of the type read for it, except an f64 local, which takes two registers and no place in the map; in an i32 function local k gets k + 3 |
| Converter.TakenCounts | ubh.cpp:22-82 | the registers taken are the occurrences of the type, an f64 read for a local counting twice |
| Converter.Translate | convertor.cpp:234-382 | the loop over the body leaves the registers, the traced stack, the code and the labels that ConvertedAll says, or fails |
| Simulation.TempPushed | ubh.cpp:105-108 | writing a new temporary changes no local and no live slot |
| Simulation.LoadIsWord | executor.cxx:57-62 | the executor's load is WebAssembly's, defined on its own from section 4.3 of the standard |
| Simulation.StoreIsStored | executor.cxx:65-70 | and its store |
| Simulation.SumIsModulo | executor.cxx:31-37 | and its addition |
| Simulation.AddEmitted | convertor.cpp:343-358 | the code of i32.add names the top slot's register as rs, the next one's as rt and a new temporary as rd |
| Simulation.StoreEmitted | convertor.cpp:325-334 | the code of i32.store names the top slot's register as rd, the next one's as rs, and has offset 0 whatever the offset |
| Simulation.SimulatesStep | convertor.cpp:288-359 | every kept instruction is simulated: its result is in the new slot's register, and locals, live slots and memory are WebAssembly's |
| Simulation.KeptExactly | convertor.cpp:288-359 | an instruction of the fragment is simulated from every matching state in which it steps exactly when it is kept: no negative constant of fewer than five bytes, no store with an offset that fits the memory |
| Simulation.ConstantLost | convertor.cpp:335-342 | every other constant ends up wrong in a function that has done nothing |
| Simulation.StoreIgnoresOffset | convertor.cpp:325-334 | a translated store, whatever its offset, writes the word at the address without it |
| Simulation.StoreMisplaced | convertor.cpp:234-382 | in that body, from any matching start, WebAssembly leaves the 1 at the offset and the translated code at 0 |
| Simulation.StoreLost | convertor.cpp:325-334 | for every other store: in a function that pushes 0 and 1 and stores, over a memory of zeros, the memory the translated body leaves is not WebAssembly's |
| Simulation.FailingStore | convertor.cpp:325-334 | i32.store with offset 4 is one of them |
| Simulation.SimulatesRun | convertor.cpp:241-382 | every prefix of a body is: each live slot's register holds its value, the locals theirs, and the memories are equal |
| Simulation.SimulatesBody | convertor.cpp:234-382 | the whole body, whose end needs no jump |
| Simulation.ConvertAndExecute | convertor.cpp:234-399 | translating and executing a straight-line body leaves WebAssembly's memory, and every traced slot's value in its register |

## Left out

- FloatLiteral.Parse: decimal literals, which go through strtof and strtod, are not modelled.
- C++ overflow of the exponent counter for literals of half a billion characters and more.
- IntLiteral.ParseInt: not stated on the empty string, where the source reads the character past the end; the same for ParseInt64.
- Reader.ReadLeb128: not stated for operands of more than five bytes, where the source shifts a 32-bit value by more than 31.
- Leb128.WriteU32Leb128: the writers to streams differ from the raw ones only in where the bytes go; streams are not modelled.
- IntrusiveList.List.Splice: a place inside the range moved, whose links the source breaks, is not modelled; the same for SpliceOne in front of the element itself. Freed nodes stay allocated: Clear returns them in the order they are freed.
- Expression locations, block signatures beyond an identifying number, and the many leaf expressions, which are one constructor.
- LabelStack.BinaryReaderIR.BeginFunctionBody: stated for an empty label stack. A body that leaves labels open passes them on to the next function; the reader of the binary format does not check that.
- A delegate that changes the tree or calls the visitor again.
- Branches.GetLabelIndexForBranch: stated for every block vector, but what its answers mean only for the hierarchies of balanced lists.
- Converter.Translate: only the instructions of straight-line i32 code. `return` falls through into the default case, `local.set` may overwrite a register that an earlier `local.get` still names, and the executor has no move; nothing is claimed of these.
- Simulation.ConvertAndExecute: register numbers of 1024 and more do not fit their fields; the frame's local registers are assumed to hold the arguments, which the source leaves uninitialised.
- Converter.UbhCode.constructor: the register tables are modelled by their sizes; what an entry says of its register's kind is only printed.
- Writing instructions to a file and scanning them back (`Emit_binary`, `Scan_inst`), tracing and printing.
- The rest of wabt: the opcode switch of the binary reader, section readers, validation, text parsing, binding tables.
