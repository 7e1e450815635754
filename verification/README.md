# The target runtime, proved

A C program compiled by rucc calls out to a small library, `runtime/builtins`, for what its machine has no instruction
for: floating point in integers at three widths, integers of 128 bits, atomics on objects too wide for one
instruction, and the block routines. Every one of these has a meaning that is fixed outside the library, by IEEE 754,
by C17 or by plain integer arithmetic, and this project proves that the algorithms have it, for all inputs and, for
the atomics, for all interleavings. Two experiments of `xtask` with an algorithm worth proving are here too: the
compression of bounds and the cache simulator.

## How it is put together

**Numbers.** A pattern, a word or a pair of words is a natural number, and what C cuts off is cut off explicitly
(`Integers.Modulo`, `Words.Cut`). Shifts and masks are division and remainder (`Powers`), and the bitwise operators are
defined bit by bit (`Bits`) and shown to be arithmetic where the code uses them so.

**The rounding specification** is `Rounding.Nearest`, and it knows nothing of significands being shifted. A finite
value is a whole number of units, the unit being the smallest subnormal of the format, so an exact result is a
quotient of two integers. A pattern is what it rounds to when no pattern of the format is nearer and, of two as near,
it is the even one. An infinity takes part as the next power of two past the range: `Rounding.OverflowThreshold` shows
that this is the overflow rule of section 4.3.1 of IEEE 754-2019, `Rounding.NearestUnique` that a rounding has one
answer and `Rounding.NearestMonotone` that it keeps order. `Ieee` says what each operation answers for every pair of
patterns, with the choices libgcc makes where the standard leaves one: a not a number comes back quieted, the left one
first. Answers that are not rounded, an infinity, a zero or a not a number, are described by their three fields and not
by the expressions that the routines return for them. `Formats` says for each of the three formats which numbers its
fields, its classes and the number one are, as the constants at the top of each file have them.

**Sticky bits** are rounding to odd (`Sticky.RoundOdd`), which composes. What survives a cut to guard, round and
sticky bits is `Sticky.Agrees`: the cut number stands where the exact one stands among the multiples of four.
`float.c` and `double.c` are one algorithm over a `Rounding.Layout`; `quad.c` is that algorithm on pairs of words, and
`QuadFloat` proves that each routine on pairs meets the same contract. The machine's own conversions and float
arithmetic, which `convert.c` uses, are the calls of `SoftFloat` and `Conversions`, whose contracts are round to
nearest and nothing else.

**Division.** In the bit loops what is carried from turn to turn is below twice the divisor, since it is doubled after
the subtraction. The comments at `runtime/builtins/quad.c:601-602` and `runtime/builtins/double.c:413-414` speak of a
remainder below the divisor, which holds only between the two; the model follows the code.

**Atomics** are a transition system. A state has the lock table, memory, the threads and four records that no step
reads. A step is one exchange on a lock, one byte read, compared or written under it, or one `cmpxchg16b`, and any
thread may take the next one. The wide reads and writes under the lock go a byte a step, which has every interleaving
that words have. A call takes effect where its lock is dropped, or at the exchange that succeeds. The library's own
demands stand: every call on an object has its address and its size, and the argument buffers are private to their
thread and are two. Where one buffer is both value and answer the two paths part, which `LockedCopies.ExchangeLocked`
states exactly. The proofs apply calls to registers (`Atomics.Apply`, `Orders.Registers`); what is claimed of runs,
`Linearization.Linearizes`, does not mention them. It explains an answer by the last call before it that wrote the
object, from what that call was handed and answered (`Orders.Explained`).

**Memory** in `Blocks` is one array whose indices are the addresses. A word is four or eight bytes in either byte
order, reached only where it is aligned, all of it read before any of it is written. `Blocks.Moved` is memory with one
range put over another, and `Blocks.MovedAt` says byte by byte what that is.

## Model

| member | source | states |
|---|---|---|
| `Sticky.ShiftDownRoundsToOdd` | runtime/builtins/float.c:141-147 | at every distance, past the word included, the sticky shift is the exact quotient rounded to the odd one of its neighbours |
| `Sticky.RoundOddTwice` | runtime/builtins/float.c:141-147 | two sticky shifts are one by the total, so nothing is rounded twice |
| `Packing.UnpackValue` | runtime/builtins/float.c:123-133 | what is unpacked is the value of the pattern, with its leading one up unless the exponent is at the bottom |
| `Packing.PackRounds` | runtime/builtins/float.c:163-185 | at every exponent, one below the range included, a significand that stands where the exact value stands is packed into the nearest pattern, the increment carrying into the exponent, from subnormal to normal and into the infinity |
| `Packing.PackNeedsItsLeadingOne` | runtime/builtins/float.c:163-185 | from one unit up, at exponents from one up, the packed pattern is the nearest exactly where the leading one is there or the exponent is one |
| `SoftFloat.Normalize` | runtime/builtins/float.c:194-199 | the leading one comes up and the exponent goes down, past zero where it must, with the value kept |
| `Addition.SumRounds` | runtime/builtins/float.c:282-289 | the sum of the larger operand and the cut smaller one packs into the nearest pattern to the exact sum |
| `Addition.DifferenceRounds` | runtime/builtins/float.c:265-289 | three bits under the significand are enough for a difference, however far its leading one has to come up |
| `SoftFloat.Add` | runtime/builtins/float.c:205-294 | every pair of patterns: the nearest pattern to the exact sum, an infinity where one is added, the quieted operand where one is not a number, and the positive quiet not a number with an empty payload for an infinity less itself |
| `SoftFloat.Subtract` | runtime/builtins/float.c:304-310 | the same for the difference, a right operand that is not a number keeping its sign |
| `Words.ShiftDownToWordIsExact` | runtime/builtins/double.c:310-314 | the sticky shift of a product of two words into one |
| `SoftFloat.ProductSignificandIsSticky` | runtime/builtins/double.c:289-314 | out of one word or out of two, the significand of a product is the exact product rounded to odd |
| `SoftFloat.Multiply` | runtime/builtins/double.c:316-364 | every pair of patterns: the nearest pattern to the exact product, subnormal and overflowing results included, a signed infinity where one is multiplied, and the empty not a number for none of an infinity |
| `Multiplication.DividingTurns` | runtime/builtins/float.c:412-419 | each turn of the division keeps the dividend as quotient times divisor plus half of what is carried, which stays below twice the divisor |
| `SoftFloat.DivideSignificands` | runtime/builtins/float.c:405-419 | after the last turn the quotient is the exact one rounded down and the rest is nothing exactly where it divides |
| `SoftFloat.Divide` | runtime/builtins/float.c:360-428 | every pair of patterns: the nearest pattern to the exact quotient, a signed infinity over a zero, a signed zero over an infinity, and the empty not a number for nothing over nothing and for an infinity over another |
| `Ieee.EmptyNanIsQuiet` | runtime/builtins/float.c:74-75 | the answer of an operation that has none is positive, not a number, and has the top bit of its fraction set and no other |
| `Ieee.QuietIsQuieted` | runtime/builtins/float.c:201-203 | quieting sets the top bit of the fraction and leaves the sign and the rest of the payload |
| `Ieee.SumIsInvalid` | runtime/builtins/float.c:205-223 | a sum is not a number exactly where an operand is not one or infinities of opposite signs meet |
| `Ieee.DifferenceIsInvalid` | runtime/builtins/float.c:304-310 | a difference, exactly where an operand is not one or infinities of one sign meet |
| `Ieee.ProductIsInvalid` | runtime/builtins/float.c:312-332 | a product, exactly where an operand is not one or a zero meets an infinity |
| `Ieee.QuotientIsInvalid` | runtime/builtins/float.c:360-391 | a quotient, exactly where an operand is not one, or both are infinite, or both are zero |
| `Formats.SingleFormat` | runtime/builtins/float.c:58-81 | the exponents, the fraction, the sign, the infinity, the quiet bit and the empty not a number of a single are these numbers, its patterns are the words of 32 bits in these classes, and 0x3F800000 is the number one |
| `Formats.DoubleFormat` | runtime/builtins/double.c:37-60 | the same for a double, whose patterns are the words of 64 bits |
| `Formats.QuadFormat` | runtime/builtins/quad.c:62-95 | the same for a quad, whose patterns are the words of 128 bits |
| `Formats.Anchors` | runtime/builtins/float.c:118-133 | in every format the least value above zero is one unit, the exponent of the bias is the number one, and an infinity stands for twice the largest power of two |
| `Comparison.CompareOrdersValues` | runtime/builtins/float.c:450-471 | the answer has the sign of the true difference, across subnormals, normals, infinities and the two zeros |
| `Comparison.PredicatesMeetTheStandard` | runtime/builtins/float.c:477-517 | each routine's answer for an unordered pair makes its caller's test come out as section 5.11 of IEEE 754-2019 requires |
| `Conversions.WidthOf` | runtime/builtins/float.c:543-550 | the number of bits of an integer, between the two powers of two around it |
| `Conversions.FromInteger` | runtime/builtins/float.c:568-580 | the nearest pattern to an integer of one word, with its sign |
| `Conversions.FromSigned` | runtime/builtins/double.c:563-599 | the nearest pattern to a signed integer, the most negative one included |
| `Conversions.IntegerOf` | runtime/builtins/double.c:617-640 | the whole part, refused exactly where sixty four bits do not hold the value |
| `Conversions.ToSigned` | runtime/builtins/double.c:650-706 | the value truncated towards zero where the type holds it, and zero everywhere else |
| `Conversions.ToUnsigned` | runtime/builtins/double.c:672-721 | the same for the unsigned types, a negative value above minus one being zero |
| `Conversions.IntegerSurvives` | runtime/builtins/double.c:575-640 | an integer of no more bits than a significand is converted exactly and truncates to itself |
| `Widths.Extend` | runtime/builtins/float.c:760-799 | widening keeps the number exactly, subnormals included, and keeps a payload in its place |
| `Widths.Truncate` | runtime/builtins/float.c:801-836 | narrowing rounds to nearest, and cuts a payload and quiets it |
| `Widths.NarrowingUndoesWidening` | runtime/builtins/float.c:760-836 | narrowing what was widened gives the pattern back bit for bit, with only the quiet bit set on a not a number |
| `Widths.WideningCommutes` | runtime/builtins/float.c:903-940 | widening in two steps and in one agree bit for bit |
| `Words.OrderIsNumeric` | runtime/builtins/quad.c:148-172 | the comparisons of pairs are the comparisons of the numbers they are |
| `Words.AddIsExact` | runtime/builtins/quad.c:174-180 | the sum of two pairs, modulo 2^128 |
| `Words.SubtractIsExact` | runtime/builtins/quad.c:182-184 | the difference of two pairs, modulo 2^128 |
| `Words.ShiftUpIsExact` | runtime/builtins/quad.c:190-192 | the shift up, and what it loses off the top |
| `Words.DropLowIsExact` | runtime/builtins/quad.c:198-200 | the shift down that drops |
| `Words.ShiftDownIsExact` | runtime/builtins/quad.c:208-224 | the three cases of the sticky shift are one rounding to odd, at every distance |
| `Words.MultiplyWordsIsExact` | runtime/builtins/quad.c:431-446 | two words as four products of halves: the exact product |
| `Words.MultiplyWide` | runtime/builtins/quad.c:455-490 | the four words hold the exact product of 256 bits |
| `Words.ShiftDownProductIsExact` | runtime/builtins/quad.c:496-503 | four words shifted into two, rounded to odd |
| `QuadFloat.UnpackRefines` | runtime/builtins/quad.c:253-263 | unpacking a pair is unpacking the number it is |
| `QuadFloat.RoundAndPackRefines` | runtime/builtins/quad.c:285-307 | packing on words is packing on the number, the carry between the words included |
| `QuadFloat.Add` | runtime/builtins/quad.c:320-408 | every pair of quads: the nearest to the exact sum, with the special operands as `SoftFloat.Add` has them |
| `QuadFloat.Subtract` | runtime/builtins/quad.c:419-425 | every pair of quads: the nearest to the exact difference, with the special operands as `SoftFloat.Subtract` has them |
| `QuadFloat.Multiply` | runtime/builtins/quad.c:505-552 | every pair of quads: the nearest to the exact product, with the special operands as `SoftFloat.Multiply` has them |
| `QuadFloat.DivideSignificands` | runtime/builtins/quad.c:599-615 | the division loop on pairs gives the exact quotient rounded down and whether anything is left |
| `QuadFloat.Divide` | runtime/builtins/quad.c:554-624 | every pair of quads: the nearest to the exact quotient, with the special operands as `SoftFloat.Divide` has them |
| `QuadFloat.CompareRefines` | runtime/builtins/quad.c:645-666 | the comparison on words is the comparison of the patterns |
| `QuadConversions.FromWord` | runtime/builtins/quad.c:796-802 | the nearest quad to an integer of one word |
| `QuadConversions.FromPair` | runtime/builtins/quad.c:1002-1014 | the nearest quad to an integer of two words, rounded where it is wider than a significand |
| `QuadConversions.FromSigned` | runtime/builtins/quad.c:812-1019 | the nearest quad to a signed integer of one word or of two |
| `QuadConversions.WordOf` | runtime/builtins/quad.c:827-846 | the whole part of a quad where one word holds it |
| `QuadConversions.PairOf` | runtime/builtins/quad.c:1032-1055 | the whole part of a quad where two words hold it |
| `QuadConversions.ToSigned` | runtime/builtins/quad.c:859-1082 | truncation to a signed type of 32, 64 or 128 bits where it holds the value, and zero elsewhere |
| `QuadConversions.ToUnsigned` | runtime/builtins/quad.c:881-1098 | truncation to an unsigned type of 32, 64 or 128 bits where it holds the value, and zero elsewhere |
| `QuadConversions.WordThroughQuad` | runtime/builtins/quad.c:816-930 | every unsigned integer of sixty four bits comes back from a quad as it was |
| `QuadConversions.SignedThroughQuad` | runtime/builtins/quad.c:812-915 | every signed integer of sixty four bits does too |
| `QuadConversions.ExtendToQuad` | runtime/builtins/double.c:791-829 | widening to a quad, on the words, is exact |
| `QuadConversions.TruncateQuad` | runtime/builtins/double.c:831-869 | narrowing a quad, on the words, rounds to nearest |
| `Integers.MagnitudeIsAbsolute` | runtime/builtins/div.c:98-104 | negating the unsigned copy gives the magnitude, the most negative value's included |
| `Integers.AsSignedIsOnly` | runtime/builtins/div.c:98-133 | a word is read as the one number of the signed type that it is the low bits of |
| `WideDivide.DivideTurn` | runtime/builtins/div.c:78-85 | a turn takes the prefix of the dividend apart one bit longer, and no shift loses a bit even at a divisor past 2^127 |
| `WideDivide.Divide` | runtime/builtins/div.c:60-90 | the quotient and the remainder of every pair with a divisor, at both widths of the file |
| `WideDivide.TruncationIsTheOnlyOne` | runtime/builtins/div.c:125-147 | the truncated pair is the only one that adds up with a remainder below the divisor on the dividend's side, section 6.5.5 of C17 |
| `WideDivide.DivideSigned` | runtime/builtins/div.c:125-133 | the quotient is the truncated one exactly where it is not the most negative value over minus one, which wraps |
| `WideDivide.RemainderSigned` | runtime/builtins/div.c:138-147 | the remainder that goes with the truncated quotient, for every signed pair with a divisor |
| `WideDivide.DivideWithRemainder` | runtime/builtins/div.c:149-152 | the two together put the dividend back, with the dividend's sign on the remainder |
| `WideMultiply.MultiplyIsExact` | runtime/builtins/wide.c:61-66 | the product modulo 2^128, for the signed reading and the unsigned one |
| `WideMultiply.MagnitudeIsAbsolute` | runtime/builtins/wide.c:71-74 | complementing and adding one gives the magnitude of every signed pair |
| `WideMultiply.OverflowIsExact` | runtime/builtins/wide.c:81-97 | the flag is up exactly where the mathematical product is outside the type, and the product is right modulo 2^128 either way |
| `WideMultiply.ShiftLeftIsExact` | runtime/builtins/wide.c:103-113 | every count from zero to 127 |
| `WideMultiply.ShiftRightIsExact` | runtime/builtins/wide.c:115-125 | every count from zero to 127 |
| `WideMultiply.ShiftRightSignedIsExact` | runtime/builtins/wide.c:130-141 | every count from zero to 127, rounding towards minus infinity |
| `MachineConvert.Significant` | runtime/builtins/convert.c:65-78 | the number of bits of a 128-bit number, by halving the step |
| `MachineConvert.LeadingRoundsToOdd` | runtime/builtins/convert.c:87-93 | the top word with its lowest bit set where anything was lost is the number rounded to odd |
| `MachineConvert.Scale` | runtime/builtins/convert.c:96-118 | multiplying by powers of two raises the exponent, and past the range gives the infinity |
| `MachineConvert.OnceIsEnough` | runtime/builtins/convert.c:120-134 | rounding to odd at more bits than a significand has, then to nearest, then scaling is rounding to nearest once |
| `MachineConvert.FromUnsigned` | runtime/builtins/convert.c:120-134 | the nearest float or double to every 128-bit integer |
| `MachineConvert.FromSigned` | runtime/builtins/convert.c:141-153 | the same for signed ones |
| `MachineConvert.ConvertBothWays` | runtime/builtins/convert.c:120-126 | below 2^64 this conversion and that of an integer of one word agree bit for bit, both on the nearest pattern |
| `MachineConvert.HighIsExact` | runtime/builtins/convert.c:167-168 | the division by 2^64 is exact |
| `MachineConvert.BackIsExact` | runtime/builtins/convert.c:169 | the conversion of the top half and the multiplication back are exact |
| `MachineConvert.RestIsExact` | runtime/builtins/convert.c:169 | the subtraction is exact |
| `MachineConvert.FixUnsigned` | runtime/builtins/convert.c:155-171 | the exact truncation of every finite value below 2^128, and zero for one that is negative or not a number |
| `MachineConvert.FixUnsignedNarrow` | runtime/builtins/convert.c:176-178 | the same by way of the wider format |
| `MachineConvert.SinglesFit` | runtime/builtins/convert.c:176-178 | every finite single is below 2^128, so only infinities are left undefined |
| `MachineConvert.FixSigned` | runtime/builtins/convert.c:185-190 | the truncation towards zero, down to -2^127 |
| `MachineConvert.FixSignedNarrow` | runtime/builtins/convert.c:192-194 | the same by way of the wider format |
| `Atomics.RmwLaws` | runtime/builtins/atomic.c:218-236 | subtracting undoes adding, `and` and `or` add up to the operands, `xor` is their difference and undoes itself, `nand` is the complement |
| `Atomics.RmwBits` | runtime/builtins/atomic.c:218-236 | `and`, `or`, `xor` and `nand` at each of the 128 places |
| `Atomics.AfterwardsIsStored` | runtime/builtins/atomic.c:513-535 | the operation once more on the value before is the value that is in the object |
| `Linearization.ExchangedIsExact` | runtime/builtins/atomic.c:351-367 | comparing sixteen bytes as one number is comparing the bytes |
| `ByteStrings.ByteOfNumber` | runtime/builtins/atomic.c:284-297 | sixteen bytes are the number that has the first of them lowest |
| `Orders.HoldsOneThing` | runtime/builtins/atomic.c:284-378 | what an object holds after some calls is one thing, told from the last that wrote it |
| `Orders.LegalExplains` | runtime/builtins/atomic.c:284-378 | in an order that registers allow, each load, exchange and read-modify-write answers what the last call that wrote the object left there, or its first bytes, and a comparison matches exactly where that is what was expected and otherwise hands it back |
| `Linearization.StepKeeps` | runtime/builtins/atomic.c:116-469 | every step of every thread keeps the invariant: one holder a lock, no lock on an object the instruction reaches, memory as far as its writer got, and records that are true |
| `Linearization.StepIsSeen` | runtime/builtins/atomic.c:284-469 | what is seen from outside of a step is the call as it was made, nothing, or the answer |
| `Linearization.EveryRunLinearizes` | runtime/builtins/atomic.c:244-469 | at every moment of every run the history is explained by an order of its calls that keeps each call between its invocation and its answer: a load answered what the last store, exchange, matched comparison or read-modify-write before it left there, or the first bytes where there is none, and so for the other calls |
| `Linearization.LocksExclude` | runtime/builtins/atomic.c:125-132 | two threads never hold one lock, in any state of any run |
| `Linearization.LocksAreDropped` | runtime/builtins/atomic.c:125-167 | a held lock has a holder, each of whose steps brings it nearer to dropping the lock, within a bound |
| `Linearization.MemoryAtRest` | runtime/builtins/atomic.c:284-378 | where no call is under way memory holds what the last call in the order to write the object left there, with no half of a copy in it |
| `Linearization.StoreIsThere` | runtime/builtins/atomic.c:299-313 | where the last call in the order to write the object is a store, and none is under way, memory is the value that was stored |
| `Linearization.PathIsDecided` | runtime/builtins/atomic.c:284-378 | a call takes the lock or loops on the instruction by the size, the alignment and the processor alone, in every state of every run |
| `Linearization.NoUpdateIsLost` | runtime/builtins/atomic.c:244-266 | threads that add to an object leave the sum of all they were asked to add, modulo 2^128 |
| `Linearization.CallsAreAccounted` | runtime/builtins/atomic.c:244-469 | in every state of every run, a call that was made is in the order or is still under way in the thread that made it |
| `Linearization.GuessFailsAfterAnotherCall` | runtime/builtins/atomic.c:248-257 | in every run, a guess that went wrong means that a call on the object by another thread took effect since the look it was made from |
| `LockedCopies.Copy` | runtime/builtins/atomic.c:139-148 | the byte loop copies, also onto itself |
| `LockedCopies.Same` | runtime/builtins/atomic.c:155-167 | the byte loop says whether two ranges are equal |
| `LockedCopies.StoreLocked` | runtime/builtins/atomic.c:299-313 | the object ends with the bytes that were handed in |
| `LockedCopies.ExchangeLocked` | runtime/builtins/atomic.c:319-336 | the exchange on two buffers, and that on one buffer for both it is an exchange exactly where the buffer held what the object held |
| `LockedCopies.CompareExchangeLocked` | runtime/builtins/atomic.c:346-378 | the comparison, the write, and the write back of what was there, also where one buffer is both what is expected and what is desired |
| `Blocks.SameSkewIsAligned` | runtime/builtins/mem.c:55-58 | the test on addresses is that they leave the same remainder by the word |
| `Blocks.BoundariesTogether` | runtime/builtins/mem.c:60-66 | what is shed takes both addresses to a boundary, up or down, in less than a word |
| `Blocks.Memcpy` | runtime/builtins/mem.c:68-94 | memory after is memory before with the bytes of one range put over a disjoint other |
| `Blocks.Memmove` | runtime/builtins/mem.c:104-157 | the same for every overlap, alignment and length |
| `Blocks.SpreadOver` | runtime/builtins/mem.c:172-178 | the doubling makes the number whose every byte is the byte |
| `Blocks.Memset` | runtime/builtins/mem.c:162-195 | every byte of the range is the low byte of the value and no other byte changed |
| `Blocks.DifferenceOrders` | runtime/builtins/mem.c:197-236 | the answer is zero exactly for equal ranges, which otherwise begin to differ in a place, and it is the first unsigned byte there less the second |
| `Blocks.Memcmp` | runtime/builtins/mem.c:207-236 | over memory and in either byte order: zero exactly for equal ranges, and otherwise negative exactly where the first byte that differs is the smaller |
| `Bounds.Round` | xtask/src/compress.rs:115-128 | the range that can be named, contains the input and is inside every other such range |
| `Bounds.RoundingIsMonotone` | xtask/src/compress.rs:115-128 | rounding keeps inclusion |
| `Bounds.RoundingIsIdempotent` | xtask/src/compress.rs:115-128 | rounding what has been rounded changes nothing |
| `Bounds.WiderMantissaIsNoWorse` | xtask/src/compress.rs:513-525 | a wider mantissa gives a range inside, and no more slack |
| `Bounds.Slack` | xtask/src/compress.rs:135-138 | how much wider the least range is than the truth |
| `Bounds.SlackIsBounded` | xtask/src/compress.rs:115-138 | a nonempty range that can be named by more than the whole space is widened by less than 4/(2^m - 3) of itself |
| `Bounds.Exponent` | xtask/src/compress.rs:226-233 | the least exponent at which the mantissa counts the whole granules of a length, at every mantissa; there is none exactly for a mantissa of no bits and a length from 2^63 up |
| `Bounds.AlignedSlackIsBounded` | xtask/src/compress.rs:563-571 | with its base on twice the granule its length needs, a range that rounds to anything but the whole space is widened by less than 2/2^m of itself |
| `Bounds.AlignedSlackDecided` | xtask/src/compress.rs:563-571 | for every range with its base on the granule its length needs, the answer of the whole space included: it is widened by less than 2/2^m of itself exactly where its base is on twice the granule or its length is no more granules than the mantissa counts, and the granule it is then named at is in the space or the whole space is itself no more than that |
| `Bounds.AlignmentIsNeeded` | xtask/src/compress.rs:563-571 | the claim fails on the granule alone: a mantissa of two bits, a base of two, seven bytes |
| `Bounds.RoomIsNeeded` | xtask/src/compress.rs:563-571 | and on twice the granule at the end of the space: a mantissa of two bits, fifteen bytes from 2^64 - 16 |
| `Bounds.NoMantissaIsWhole` | xtask/src/compress.rs:115-128 | a mantissa of no bits answers every nonempty range with the whole space |
| `LruCache.Cache.constructor` | xtask/src/aux_plane.rs:138-147 | an empty cache of at least one set |
| `LruCache.Cache.Access` | xtask/src/aux_plane.rs:150-167 | the answer is true exactly where the line was used before and fewer than `ways` different lines of its set have been since, over the whole history, and the counters count |
| `LruCache.TakenIsRecent` | xtask/src/aux_plane.rs:150-167 | being at the front of the order of use is having had fewer than `ways` different other lines used since |
| `LruCache.RecentInSet` | xtask/src/aux_plane.rs:150-153 | being recent in the part of the history that falls in the set is being recent among the lines of the set in the history |
| `LruCache.HeldIsDistinct` | xtask/src/aux_plane.rs:150-167 | a set holds no line twice and no more lines than it has ways |
| `LruCache.MoreWaysHoldMore` | xtask/src/aux_plane.rs:150-167 | what fewer ways hold is the front of what more ways hold |
| `LruCache.MoreWaysHitMore` | xtask/src/aux_plane.rs:150-167 | hits never fall as ways grow |

## Left out

- `runtime/builtins/complex.c` and `runtime/builtins/bitscan.c`: case analysis on hardware floats without an exact
  specification, and thin wrappers over compiler builtins.
- The 80-bit float: the library does not define its conversions.
- Weak memory orderings, `cpuid` and inline assembly: memory is sequentially consistent, `cmpxchg16b` is one step, and
  whether the processor has it is a constant of the machine.
- A 32-bit target's lock table: addresses are hashed at sixty four bits, and the hash of a narrower pointer is not
  modelled. Nothing but its range is used.
- Whether a thread that spins ever gets its lock: that depends on a scheduler. What is proved is that a holder lets go
  and that a failed guess is another call's success.
- Objects that overlap, or that are reached at two addresses or sizes: the library forbids them.
- Whether memory, addresses and counters end: `Blocks` has an array for memory, and the hit and miss counters of the
  cache do not wrap round at 2^64.
- The population sweeps, tallies and reports of `xtask/src/compress.rs` and the programs and layouts of
  `xtask/src/aux_plane.rs`, and the rest of `xtask`: drivers that run things and print.
- The negations, the unordered tests and the entry points that only name a routine above at a width: they would only
  add easy members.
- LockedCopies.ExchangePaired: does not model the instruction as one step, which `Atomics.Guess` does; it is the order
  in which the argument buffers are read and written.
