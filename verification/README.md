# Verified model of the fixed-point and register code

The application in this repository drives an LCD, a network and a file system on an i.MX RT1050.
The code that can be stated precisely is the inline C of its CMSIS headers and one interrupt
handshake. This project models that code in Dafny and proves what it is for.

| file | what it models |
|---|---|
| `Words.dfy` | the integer widths, C's narrowing casts, and `&`, `|`, `~`, shifts on words |
| `BitLoops.dfy` | `__CLZ`, both `__RBIT` loops, `__ROR`, the `__SSAT` fallback |
| `FixedPoint.dfy` | `clip_q63_to_q31`, `__QADD`, `__QSUB` |
| `Reciprocal.dfy` | the Newton reciprocals of Q31 and Q15 |
| `Pid.dfy` | the Q15 PID controller, scalar and packed, over whole runs |
| `Motor.dfy` | Clarke and Park transforms and their inverses |
| `Interpolation.dfy` | Q15 and Q7 linear interpolation, Q7 bilinear interpolation |
| `Circular.dfy` | the strided circular buffer |
| `MpuTable.dfy`, `MpuV8.dfy`, `MpuV7.dfy` | the batch loaders of the memory protection unit |
| `Nvic.dfy`, `PriorityCodec.dfy` | the two interrupt-priority stores and the priority codec |
| `FrameHandover.dfy` | the frame buffer handover between display driver and LCD interrupt |

Conventions. A machine word is an integer with a range; accumulators and products have the type of
their width, so that each one is proved to fit, and every cast is written out. A right
shift is division by a power of two, which rounds down like an arithmetic shift. On signed operands,
`x & 0xFFFFF` is the remainder by 2^20 and `(x & 0xFFF00000) >> 20` the quotient. The code that
updates memory (`arm_circularWrite_q15`, the PID objects, the MPU and NVIC registers, the loops on
words) is methods with loops, arrays and fields; the straight-line code is functions.

Where the code and its documentation differ, the code is modelled:

- `arm_clarke_q31` is documented to have no risk of overflow. Its second product wraps when the
  magnitude of `Ib` exceeds 0x6ED9EBA1 (`Motor.BetaProductFitsExactly`, `Motor.ClarkeWrapLoss`).
- `arm_park_q31` and `arm_inv_park_q31` make the same claim. A product wraps exactly if both of its
  operands are -2^31 (`Motor.ProductFitsExactly`).
- `arm_bilinear_interp_q7` is documented to return zero outside the table, but its boundary test compares
  columns with rows. With up to 2048 rows and columns, every point outside is rejected exactly if the
  table is square (`Interpolation.OutsideIsRejected`, `Interpolation.BoundaryTestIsExact`); otherwise
  some points outside are accepted (`Interpolation.TallGridAnswersOutside`). Some points with all four
  neighbours in the table are answered with zero, with 2 to 2048 rows and columns exactly if their
  numbers differ by more than one (`Interpolation.RejectedInside`, `Interpolation.RejectionFreeGrids`).
- The same function reads past the data for some accepted point, unless the table has enough more rows
  than columns; with up to 2048 rows, it does so in every square table
  (`Interpolation.ReadsStayInDataExactly`, `Interpolation.ReadsStayInSmallGrid`).
- The linear interpolation is documented for tables of up to 2^12 values. An input is signed, so it can
  name only the entries below 0x800, and from 0x801 on a table is cut off (`Interpolation.LongTableIsCutOff`).
- The linear interpolation weights add up to 0xFFFFF and not 0x100000, so at its own position every
  positive table value but the last one is met one too low (`Interpolation.LinearQ15AtEntry`,
  `Interpolation.PassesThroughTable`). Below the table the first entry is returned as it is, which breaks
  monotonicity there (`Interpolation.MonotoneBelowZero`).
- When `A0` and the input are both negative, the packed PID controller adds one to the sum of products.
  The output differs if that one carries into bit 15 of the sum and no rail hides it
  (`Pid.SamplesAgree`); the two forms agree on all runs exactly if `A0` is not negative or all gains are
  even (`Pid.FormsAgree`). It is modelled with the 64-bit accumulation of the SMLALD instruction; the C
  replacement adds in 32 bits first (`Pid.FallbackAgrees`).
- The reciprocals are documented without a restriction on the input. With every good table the words
  compute the two Newton steps exactly for the positive inputs (`Reciprocal.ExactStepsQ31`,
  `Reciprocal.ExactStepsQ15`). For zero and for negative inputs the Q31 function returns 0x7FFFFFFF
  (`Reciprocal.NotPositiveSaturatesQ31`); the Q15 function has no saturation and wraps
  (`Reciprocal.ZeroWrapsQ15`, `Reciprocal.NegativeInputLosesQ15`).
- The circular buffer functions claim to watch out for negative values, but wrap at the top of the ring
  only, and once: a negative stride leaves the buffer as soon as a block passes its base, and a stride
  above the length climbs out of it (`Circular.NegativeStrideExactly`, `Circular.LargeStrideExactly`).
- The frame interrupt may confirm a buffer that is not on the screen. That can happen exactly to a show
  call that begins with a frame interrupt outstanding and another buffer on the screen
  (`FrameHandover.ConfirmationIsSafe`).

Hypotheses. The reciprocal tables, the sine and the cosine are parameters; the accuracy of a table is
the predicate `GoodTableQ31` or `GoodTableQ15`, and `Reciprocal.MidpointTableIsGood` and
`Reciprocal.MidpointTableIsGoodQ15` show tables that have it. The number of MPU aliases and the number
of priority bits are parameters. Memory is little-endian where the packed PID controller reads two
samples as one word.

## Model

| member | source | states |
|---|---|---|
| Words.CastsKeepLowBits | CMSIS/arm_math.h:520-525 | every narrowing cast keeps the low bits of its argument |
| Words.BitIsDigit | CMSIS/cmsis_iccarm.h:487-513 | bit i is the binary digit of weight 2^i |
| BitLoops.Clz | CMSIS/cmsis_iccarm.h:487-500 | the loop terminates with 32 for zero, and otherwise with the n for which the word lies in [2^(31-n), 2^(32-n)) |
| BitLoops.LeadingZeros | CMSIS/cmsis_iccarm.h:487-500 | the number of leading zeros is 32 if and only if the word is zero, and a non-zero word with n of them lies in [2^(31-n), 2^(32-n)) |
| BitLoops.Rbit | CMSIS/cmsis_gcc.h:984-1005 | the early-exit loop returns the bit reversal of every word; the garbage above the reversed bits never survives the final shift |
| BitLoops.RbitIar | CMSIS/cmsis_iccarm.h:502-513 | the same for the loop that counts in a byte |
| BitLoops.ReverseIsTheMirror | CMSIS/cmsis_gcc.h:979-983 | the reversal is the one word whose bit i is bit 31 - i of the argument |
| BitLoops.ReverseIsInvolution | CMSIS/cmsis_gcc.h:979-983 | reversing twice gives the word back |
| BitLoops.ClzOfReverseIsLowestSetBit | CMSIS/cmsis_iccarm.h:487-513 | the leading zeros of the reversal of a non-zero word are the index of its lowest set bit |
| BitLoops.BitOfRor | CMSIS/cmsis_gcc.h:957-965 | rotation by k moves bit (i + k) mod 32 to bit i, for every k |
| BitLoops.ReverseOfRor | CMSIS/cmsis_gcc.h:957-1005 | reversal turns a rotation to the right by k into a rotation to the left by k |
| BitLoops.RorAdds | CMSIS/cmsis_gcc.h:957-965 | rotating by j and then by k is rotating by their 32-bit sum |
| BitLoops.Ssat | CMSIS/cmsis_gcc.h:1302-1318 | for a width in 1..32 the value is clamped to the signed range of that width, for any other width it is unchanged |
| FixedPoint.ClipQ63ToQ31 | CMSIS/arm_math.h:520-525 | comparing the high word with the sign of the low word is clamping to the Q31 range, for every 64-bit value |
| Reciprocal.StepNeverOvershoots | CMSIS/arm_math.h:604-611 | from any non-negative estimate, one Newton step ends below the exact reciprocal, in both formats |
| Reciprocal.StepConverges | CMSIS/arm_math.h:604-611 | one step squares the relative error, up to two explicit rounding terms |
| Reciprocal.TurnQ31IsSaturatedStep | CMSIS/arm_math.h:604-611 | for every estimate and every input but -2^31, negative ones included, the unsigned words never wrap: a turn is the exact step, written out, saturated |
| Reciprocal.TurnQ15IsCastStep | CMSIS/arm_math.h:655-662 | for every estimate and input the unsigned product and the cast give the exact step, written out, modulo 2^16 |
| Reciprocal.TurnQ31IsExact | CMSIS/arm_math.h:604-611 | on normalised positive inputs the clip does not saturate: the words compute the exact step |
| Reciprocal.TurnQ15IsExact | CMSIS/arm_math.h:655-662 | on normalised positive inputs the unclipped cast loses nothing |
| Reciprocal.RefineQ31 | CMSIS/arm_math.h:599-611 | the loop of two iterations computes two saturated steps for every input, and two exact Newton steps for normalised positive ones |
| Reciprocal.RefineQ15 | CMSIS/arm_math.h:650-662 | the loop of two iterations computes two steps modulo 2^16 for every input, and two exact Newton steps for normalised positive ones |
| Reciprocal.RecipQ31 | CMSIS/arm_math.h:573-618 | for every good table: input * out * 2^(ret-1) is below 2^61 and within 2^37 + 2^33 of it if the input is positive, and the output is 0x7FFFFFFF if it is not; the shift normalises the input and is 31 for zero, and the seed is the entry of the next six bits |
| Reciprocal.RecipQ15 | CMSIS/arm_math.h:624-669 | for every good table: input * out * 2^(ret-1) is below 2^29 and within 2^16 + 73 of it if the input is positive, and the output is between -2052 and -8 for zero; two steps modulo 2^16 from the selected entry for every input |
| Reciprocal.NormalisedRange | CMSIS/arm_math.h:582-592 | shifting by the sign bits does not overflow and puts the leading one next to the sign |
| Reciprocal.TwoStepsAccurateQ31 | CMSIS/arm_math.h:599-611 | two steps from a seed within 2^-6 leave a relative error of at most 2^-24 + 2^-28, from below |
| Reciprocal.TwoStepsAccurateQ15 | CMSIS/arm_math.h:650-662 | two steps from a seed within 2^-6 leave a relative error of at most 2^-13 + 73 * 2^-29, from below |
| Reciprocal.ReciprocalAccurateQ31 | CMSIS/arm_math.h:573-618 | the error bound for the table entry that the index selects and the normalising shift |
| Reciprocal.ReciprocalAccurateQ15 | CMSIS/arm_math.h:624-669 | the same in Q15 |
| Reciprocal.NotPositiveSaturatesQ31 | CMSIS/arm_math.h:586-611 | for zero and every negative input the correction only grows, and with any good table both turns saturate |
| Reciprocal.ZeroWrapsQ15 | CMSIS/arm_math.h:655-662 | for zero the Q15 casts leave a small negative number instead |
| Reciprocal.NegativeInputLosesQ15 | CMSIS/arm_math.h:637-662 | for every negative input and every good table the first Q15 step leaves the format, and its cast loses at least 2^16 |
| Reciprocal.ExactStepsQ31 | CMSIS/arm_math.h:573-618 | with every good table, the output is that of two exact Newton steps if and only if the input is positive |
| Reciprocal.ExactStepsQ15 | CMSIS/arm_math.h:624-669 | the same in Q15: the casts lose nothing in the end if and only if the input is positive |
| Reciprocal.MidpointTableIsGood | CMSIS/arm_math.h:595-601 | the table of reciprocals of the segment midpoints meets the accuracy hypothesis on every index |
| Reciprocal.MidpointTableIsGoodQ15 | CMSIS/arm_math.h:646-652 | the same for the Q15 hypothesis |
| Pid.PidQ15.Process | CMSIS/arm_math.h:4875-4897 | a sample shifts the two stored inputs and leaves the sum of products, added to the stored output in 1.15 format and saturated; no intermediate overflows |
| Pid.PidDspQ15.Process | CMSIS/arm_math.h:4864-4897 | the same with the halves of the packed gain word, and one added to the sum when A0 and the input are both negative |
| Pid.HalvesOfWord | CMSIS/arm_math.h:962-968 | the signed halves that the dual products multiply make up the word |
| Pid.SignExtendedProduct | CMSIS/arm_math.h:962-968 | the dual product of two sign-extended operands is their product, plus one when both are negative |
| Pid.FallbackAgrees | CMSIS/arm_math.h:932-941 | the C replacement of SMLALD agrees with the instruction if and only if not all four halves are -2^15; then it is 2^32 less, modulo 2^64 |
| Pid.PackedFollowsScalar | CMSIS/arm_math.h:4864-4888 | for all gains, histories and inputs, 0 <= packed - scalar <= number of negative inputs so far if A0 is negative, and 0 otherwise |
| Pid.SamplesAgree | CMSIS/arm_math.h:4864-4897 | packed and scalar sample leave the same state if and only if not: A0 and the input are negative, the sum of products is 0x7FFF modulo 2^15, and the unsaturated output is from -2^15 to 2^15 - 2 |
| Pid.FormsAgree | CMSIS/arm_math.h:4864-4897 | packed and scalar object agree on all runs from all histories if and only if A0 >= 0 or all three gains are even |
| Pid.PackedBoundIsReached | CMSIS/arm_math.h:4864-4888 | for every run length up to 32768 there is a run on which that bound is attained |
| Pid.FeedScalar | CMSIS/arm_math.h:4875-4897 | calling the scalar object sample by sample folds its step over the inputs |
| Pid.FeedPacked | CMSIS/arm_math.h:4864-4897 | the same for the packed object |
| Pid.RunIsRecurrence | CMSIS/arm_math.h:4722-4726 | the trace of the scalar object is the documented recurrence, saturated at each sample, for all gains and inputs |
| Pid.DerivedGainsArePid | CMSIS/arm_math.h:4722-4726 | the gains are the documented ones if and only if the sum of products is the sum of proportional, integral and derivative terms, for all inputs |
| Pid.SteadyRun | CMSIS/arm_math.h:4722-4726 | with the derived gains and a steady input, n samples move the output by n times the floor of Ki * c / 2^15 under a single saturation |
| Pid.HeldInput | CMSIS/arm_math.h:4722-4726 | from any history, every sample after the second of a held input moves the output by that amount, until the rail, where it stays |
| Motor.BetaProductFitsExactly | CMSIS/arm_math.h:5009-5010 | the second product fits in 32 bits exactly for magnitudes up to 0x6ED9EBA1 |
| Motor.ClarkeExactly | CMSIS/arm_math.h:4995-5014 | the transform of every input to the last bit: two rounded products, the wrap of the second and one saturation |
| Motor.InvClarkeExactly | CMSIS/arm_math.h:5092-5111 | the inverse of every input to the last bit |
| Motor.ClarkeIsDocumented | CMSIS/arm_math.h:4995-5014 | with r the root of three, Ibeta * r is between 6 below and 3 above Ia + 2 * Ib |
| Motor.ClarkeRoundTrip | CMSIS/arm_math.h:5092-5111 | unless the product wraps or the addition saturates, the inverse returns Ia exactly and Ib with an error between -3 and 1 |
| Motor.ClarkeSaturationLoss | CMSIS/arm_math.h:5092-5111 | when the addition saturates, Ib comes back short by sqrt(3) / 2 times what was cut off |
| Motor.ClarkeWrapLoss | CMSIS/arm_math.h:5009-5013 | when the product wraps, Ib comes back with the other sign and off by more than 0x6ED9EBA1 |
| Motor.ClarkeRoundTripExactly | CMSIS/arm_math.h:5092-5111 | Ib comes back within 3 if and only if its product fits and Ib + Ia / 2 is from -0x6ED9EBA4 to 0x6ED9EBA3 |
| Motor.ProductFitsExactly | CMSIS/arm_math.h:5217-5228 | a Q31 product fits exactly unless both operands are -1, and then it is -1 |
| Motor.ParkExactly | CMSIS/arm_math.h:5206-5235 | for every input both components are the saturated sum and difference of the four products |
| Motor.InvParkExactly | CMSIS/arm_math.h:5319-5348 | the same for the inverse |
| Motor.ParkSaturatesOnce | CMSIS/arm_math.h:5230-5234 | unless a product wraps, the components are the sums of the rounded-down products, saturated |
| Motor.ParkUnsaturatedExactly | CMSIS/arm_math.h:5230-5234 | the sums are returned unchanged if and only if both are in range |
| Motor.ParkIsRotation | CMSIS/arm_math.h:5206-5235 | Id and Iq are the documented rotation, Id less than 2 below and Iq less than 1 off |
| Motor.ParkRoundTrip | CMSIS/arm_math.h:5319-5348 | unless a product wraps or the forward transform saturates, alpha comes back within 4 and beta within 5, plus their magnitude times the relative error of sin^2 + cos^2 |
| Interpolation.LinearQ15IsInterpolation | CMSIS/arm_math.h:5529-5571 | for every table and input all reads are in bounds, no narrowing loses anything, and the result is the piecewise linear function |
| Interpolation.LinearQ7IsInterpolation | CMSIS/arm_math.h:5586-5628 | the same function with the other order of tests and the 32-bit accumulator |
| Interpolation.LinearQ15Exactly | CMSIS/arm_math.h:5529-5571 | for the input with index i and fraction f: the first entry below the table, the last one above it, and between them the weighted sum of entries i and i + 1, rounded down |
| Interpolation.LinearQ7Exactly | CMSIS/arm_math.h:5586-5628 | the same in Q7 |
| Interpolation.SegmentRange | CMSIS/arm_math.h:5558-5570 | for any table the result lies between the smaller neighbour less one and the larger one |
| Interpolation.InterpolationError | CMSIS/arm_math.h:5383-5389 | the result is less than 1 + 2^-5 below and at most 2^-5 above the exact line |
| Interpolation.LinearQ15AtEntry | CMSIS/arm_math.h:5544-5570 | at the position of entry i the result is the entry, less one if it is positive and not the last |
| Interpolation.LinearQ7AtEntry | CMSIS/arm_math.h:5601-5627 | the same in Q7 |
| Interpolation.PassesThroughTable | CMSIS/arm_math.h:5544-5570 | the interpolation meets every entry if and only if none but the last is positive |
| Interpolation.LongTableIsCutOff | CMSIS/arm_math.h:5522-5571 | no input reads an entry of a table from 0x801 on: the result is that for its first 0x801 entries |
| Interpolation.LongTableIsCutOffQ7 | CMSIS/arm_math.h:5579-5628 | the same in Q7 |
| Interpolation.InterpolationMonotone | CMSIS/arm_math.h:5529-5571 | for a non-decreasing table of any length the result is non-decreasing for x >= 0, across seams and into the tail |
| Interpolation.MonotoneBelowZero | CMSIS/arm_math.h:5544-5551 | over all inputs it is non-decreasing if and only if the table has one entry or does not start with a positive one |
| Interpolation.BilinearIsTwoStep | CMSIS/arm_math.h:6951-7015 | inside the grid the result is zero if the boundary test rejects the point, and otherwise the two-step interpolation floored once by 2^40 |
| Interpolation.BilinearExactly | CMSIS/arm_math.h:6951-7015 | for the point with indices i, j and fractions u, v: zero if the boundary test rejects it, and otherwise the weighted sum of the four values read, rounded down |
| Interpolation.CellIsExact | CMSIS/arm_math.h:6993-7014 | for any four neighbours and fractions the four partial products add up to the two-step blend and the cast loses nothing |
| Interpolation.BilinearAccepted | CMSIS/arm_math.h:6981-7014 | every accepted point whose reads stay in the data, at any column, blends the four elements its flat reads meet, where columns past the last go on in the rows below |
| Interpolation.BilinearLastColumn | CMSIS/arm_math.h:6981-7014 | on the last column that is the first column of the rows below; without a fraction the result is interpolated along the column |
| Interpolation.ReadsStayInDataExactly | CMSIS/arm_math.h:6974-6991 | no accepted point reads past the data if and only if the table is empty or R + numCols * C < numRows * numCols, with R and C the numbers of rows and columns up to 0x800 |
| Interpolation.ReadsStayInSmallGrid | CMSIS/arm_math.h:6974-6991 | for 1 to 0x800 rows and columns that is numCols^2 < numRows * (numCols - 1), which takes at least two more rows than columns |
| Interpolation.BilinearRange | CMSIS/arm_math.h:6993-7014 | the result lies between the smallest neighbour less one and the largest |
| Interpolation.RejectedInside | CMSIS/arm_math.h:6974-6979 | a point inside is rejected if and only if its column is not a row number or its row not a column number |
| Interpolation.RejectionFreeGrids | CMSIS/arm_math.h:6974-6979 | a grid rejects no point inside if and only if it has a single row or column, or its numbers of rows and columns, counted up to 2049, differ by at most one |
| Interpolation.OutsideIsRejected | CMSIS/arm_math.h:6715-6716 | all points outside the table are rejected if and only if the table is empty or has as many rows as columns, both counted up to 0x800 |
| Interpolation.OutsideIsZero | CMSIS/arm_math.h:6715-6716 | a point outside the table is answered with zero if a coordinate is negative, and in every table with as many rows as columns |
| Interpolation.BoundaryTestIsExact | CMSIS/arm_math.h:6974-6979 | under the same condition and no other, the points rejected are those outside the table |
| Interpolation.TallGridAnswersOutside | CMSIS/arm_math.h:6974-6979 | a grid that rejects no point inside, and a point outside the table that is answered with 99 instead of zero |
| Interpolation.WideGridAnswersZero | CMSIS/arm_math.h:6974-6979 | a grid and a point inside it that is answered with zero instead of 99 |
| Interpolation.SharedVerticalEdge | CMSIS/arm_math.h:6981-7014 | the last point of a cell and the first of its neighbour in x have the same value |
| Interpolation.SharedHorizontalEdge | CMSIS/arm_math.h:6981-7014 | the same in y |
| Interpolation.BilinearMonotone | CMSIS/arm_math.h:6951-7015 | if all rows are non-decreasing the result is non-decreasing along x, within and across cells |
| Interpolation.BilinearMonotoneY | CMSIS/arm_math.h:6951-7015 | if all columns are non-decreasing the result is non-decreasing along y, within and across cells |
| Interpolation.BilinearError | CMSIS/arm_math.h:6704-6710 | the result is less than 1 + 2^-12 below the documented formula and at most 2^-12 above it |
| Circular.OffsetStep | CMSIS/arm_math.h:5914-5917 | adding the increment and subtracting the length once is stepping modulo the length |
| Circular.NegativeStrideExactly | CMSIS/arm_math.h:5912-5917 | a negative stride stays inside the buffer if and only if start + (n - 1) * inc is not below the base, and the next call finds its offset in the ring if and only if start + n * inc is not |
| Circular.LargeStrideExactly | CMSIS/arm_math.h:5912-5917 | a stride above L stays inside the buffer and 32 bits if and only if start + (n - 1) * (inc - L) does with the increment after it, and the next offset is in the ring if and only if start + n * (inc - L) < L |
| Circular.WalkIsModular | CMSIS/arm_math.h:5912-5917 | for strides from 0 to L the wrap at the top is stepping modulo L, for every number of samples |
| Circular.ModularFits | CMSIS/arm_math.h:5904-5917 | strides from 0 to L never leave the ring or 32 bits, for L up to 2^30 |
| Circular.CircularWriteQ15 | CMSIS/arm_math.h:5886-5924 | for every stride, length and source step whose accesses are in bounds, the loop writes the samples in order at the offsets of the walk and returns the last one as a 16-bit value; for strides from 1 to L the last L / gcd(inc, L) source samples are at (start + i * inc) mod L |
| Circular.CircularReadQ15 | CMSIS/arm_math.h:5930-5980 | under the same bounds the loop delivers the samples met on the walk and returns the last offset; with unit steps sample i of the last round is at (start + i) mod the destination length |
| Circular.WalkWrittenAt | CMSIS/arm_math.h:5904-5921 | on any walk a slot holds the last sample written to it |
| Circular.WalkNotWritten | CMSIS/arm_math.h:5904-5921 | a slot off the walk keeps its value |
| Circular.DeliveredAt | CMSIS/arm_math.h:5952-5966 | a place of the destination holds the last sample delivered to it |
| Circular.NotDelivered | CMSIS/arm_math.h:5952-5966 | any other place keeps its value |
| Circular.DstGoesAround | CMSIS/arm_math.h:5956-5962 | if start and end are multiples of the step, the place of sample i is (start + i * step) mod end |
| Circular.DstGoesOn | CMSIS/arm_math.h:5956-5962 | a destination end that is never met is passed |
| Circular.DeliveredAround | CMSIS/arm_math.h:5952-5966 | a block that goes around the destination leaves its last round there in order |
| Circular.SourceInRing | CMSIS/arm_math.h:5907-5911 | sample i of the source is in its slot if it is one of the last L / gcd(inc, L) |
| Circular.HistoryOfSource | CMSIS/arm_math.h:5886-5924 | with stride 1 the history goes on with the samples of the source |
| Circular.DeliveredContiguously | CMSIS/arm_math.h:5952-5966 | with unit steps and enough room the block arrives contiguously and nothing else changes |
| Circular.NotWritten | CMSIS/arm_math.h:5904-5921 | a slot that is not visited keeps its value |
| Circular.ReadBack | CMSIS/arm_math.h:5886-5980 | reading from the starting offset returns the block, if it has at most L / gcd(inc, L) samples |
| Circular.ReadBackExactly | CMSIS/arm_math.h:5886-5980 | reading back works for all samples of a block length if and only if the length is at most L / gcd(inc, L) |
| Circular.HistoryOfWrite | CMSIS/arm_math.h:5886-5924 | with stride 1 a block write shifts the history: the last L samples of the old history followed by the block |
| Circular.RingHistory | CMSIS/arm_math.h:5886-5924 | after any calls with any block sizes the ring holds the last L samples of its contents followed by the stream, and the 16-bit offset loses nothing for L <= 65536 |
| Circular.WriteBlocks | CMSIS/arm_math.h:5886-5924 | calling the write routine block by block leaves the last L samples of what the ring held and of the stream, and the offset (start + samples) mod L |
| Circular.StreamAppends | CMSIS/arm_math.h:5886-5924 | the stream of two lists of blocks is that of the first followed by that of the second |
| Circular.StreamOfOne | CMSIS/arm_math.h:5886-5924 | the stream of one block is the block |
| Circular.BackwardRead | CMSIS/arm_math.h:5886-5924 | reading backwards from the write offset meets that history from its newest sample |
| MpuV8.WindowBase | CMSIS/mpu_armv8.h:292-293 | the mask with ~(RALIASES - 1) gives the first region of the window, for every power of two |
| MpuV8.AliasReplacesLowBits | CMSIS/mpu_armv8.h:292-299 | an alias reaches the region counted on from RNR if and only if RNR is the first of its window, which is why the loader masks |
| MpuV8.Mpu.SetRegionEx | CMSIS/mpu_armv8.h:236-241 | sets both words of the given region and nothing else |
| MpuV8.Mpu.OrderedCpy | CMSIS/mpu_armv8.h:270-277 | the words go in order to the registers, none beyond the last alias |
| MpuV8.Mpu.LoadEx | CMSIS/mpu_armv8.h:285-308 | the same regions as setting the rows one at a time, for every start, count and power-of-two number of aliases, region numbers wrapping at 2^32; the final RNR; every selected window receives a write |
| MpuV8.Mpu.LoadWindows | CMSIS/mpu_armv8.h:295-306 | the loop over windows, which ends because the count decreases, sets the rows in order |
| MpuV8.WordsSetRows | CMSIS/mpu_armv8.h:270-277 | writing the words of rows one after the other sets the rows |
| MpuV8.SetOneByOneEffect | CMSIS/mpu_armv8.h:279-284 | loading changes exactly the cnt regions from rnr on, modulo 2^32, each to its row |
| MpuV7.Mpu.SetRegion | CMSIS/mpu_armv7.h:150-154 | the region in bits 3..0 if bit 4 is set, and the selected one otherwise, is selected and gets the address above bit 5 and the attributes; every other region keeps its own |
| MpuV7.Mpu.Load | CMSIS/mpu_armv7.h:186-195 | the chunked load ends in the state of setting the rows one after the other, for every length |
| MpuV7.WordsSetRows | CMSIS/mpu_armv7.h:173-180 | copying the words of rows through the aliases sets the rows in order |
| MpuV7.MadeRbarSelects | CMSIS/mpu_armv7.h:75-78 | the RBAR macro makes a word that is valid and holds the region number and base address bits it was given |
| MpuV7.LoadedTable | CMSIS/mpu_armv7.h:186-195 | each region ends with the last row that names it, repetitions included, and the others keep their state |
| Nvic.Baseline.SetPriority | CMSIS/core_armv8mbl.h:1477-1489 | the read-modify-write puts the shifted priority into byte irq mod 4 of word irq / 4, or of the system handler word, and changes the priority of no other interrupt |
| Nvic.Baseline.GetPriority | CMSIS/core_armv8mbl.h:1501-1512 | returns the implemented bits of that byte of that word |
| Nvic.BaselineIndices | CMSIS/core_armv8mbl.h:1271-1273 | the shift and index macros pick the byte of the interrupt within 124 and 2 words |
| Nvic.ByteOfSetByte | CMSIS/core_armv8mbl.h:1481-1482 | masking and joining replaces one byte of a word |
| Nvic.Mainline.SetPriority | CMSIS/core_armv8mml.h:2375-2385 | the byte store puts the shifted priority into byte irq, or system handler byte irq + 12, and changes no other byte |
| Nvic.Mainline.GetPriority | CMSIS/core_armv8mml.h:2397-2408 | returns the implemented bits of that byte |
| Nvic.ShownOfStored | CMSIS/core_armv8mml.h:2379-2402 | a stored priority reads back modulo 2^PRIO_BITS |
| Nvic.RunShowsLast | CMSIS/core_armv8mml.h:2375-2408 | after any run of sets, each interrupt reads as the last priority set for it modulo 2^PRIO_BITS, or as before |
| Nvic.RunBaseline | CMSIS/core_armv8mbl.h:1477-1489 | a log of NVIC_SetPriority calls on the packed store ends in the table that the log describes |
| Nvic.RunMainline | CMSIS/core_armv8mml.h:2375-2385 | the same on the byte store |
| Nvic.RunsAgree | CMSIS/core_armv8mbl.h:1477-1512 | after the same log two tables agree on an interrupt if and only if the log set it or they agreed before |
| Nvic.AskBoth | CMSIS/core_armv8mbl.h:1477-1512 | after the same log on both cores, NVIC_GetPriority answers alike on the packed and the byte store, for each interrupt from -8 to 495, if and only if the log set it or they answered alike before; a set one answers its last priority modulo 2^PRIO_BITS |
| PriorityCodec.FieldsAddUp | CMSIS/core_armv8mml.h:2424-2429 | for every group the two fields share exactly the implemented bits |
| PriorityCodec.DecodeOfEncode | CMSIS/core_armv8mml.h:2422-2460 | decoding an encoded pair returns both fields, reduced to their widths |
| PriorityCodec.EncodeOfDecode | CMSIS/core_armv8mml.h:2422-2460 | encoding a decoded priority returns its implemented bits |
| PriorityCodec.EncodingOrder | CMSIS/core_armv8mml.h:2422-2435 | the order of encodings is that of preemption priority first and sub-priority second |
| PriorityCodec.EncodingSurvivesStore | CMSIS/core_armv8mml.h:2375-2435 | an encoding reads back unchanged from the store, so the order is kept |
| FrameHandover.Lcdif.IrqHandler | board/emwin_support.c:80-96 | the handler is the interrupt step of the state machine |
| FrameHandover.InvNext | board/emwin_support.c:80-96 | every step of driver, controller and handler keeps the invariant |
| FrameHandover.ConfirmsInOrder | board/emwin_support.c:222-236 | in every interleaving the confirmations are the shown indices once each and in order, each before its call returns; negative indices are never confirmed |
| FrameHandover.ConfirmationIsSafe | board/emwin_support.c:222-236 | before any show call of any run: every continuation confirms that buffer while the screen shows base + size * index, modulo 2^32, if and only if no frame interrupt is outstanding, or the screen already shows it |
| FrameHandover.ConfirmedIsVisible | board/emwin_support.c:80-96 | if frame interrupts are taken before the driver goes on, the screen shows base + size * index, modulo 2^32, at every confirmation, even if a frame ends between the two stores |
| FrameHandover.BaseShownFirst | board/emwin_support.c:115-125 | until the first show call the screen shows the base of the buffers |
| FrameHandover.LateInterruptConfirmsInvisible | board/emwin_support.c:222-236 | a run that reaches such a show call, and the continuation that confirms a buffer before it is on the screen |
| FrameHandover.SpinEnds | board/emwin_support.c:233-235 | from wherever the driver spins, every continuation with a frame end, then an interrupt, then a poll, and any steps before, between and after, has returned from the call |

## Left out

- Reciprocal.RecipQ31: the input -2^31, whose negation overflows and whose shift count would be negative; the left shift of a negative input is the multiplication that the hardware does.
- Reciprocal.RecipQ15: the input -2^15, whose shift count would be negative; for a negative input the result is given by two steps modulo 2^16, without a closed form.
- Circular.CircularWriteQ15: accesses outside the buffer or the source and offsets that overflow 32 bits, which are undefined in C; the source is read as it was before the call, so it does not overlap the ring.
- Circular.CircularReadQ15: the same; the destination is an array whose index 0 is the destination base, distinct from the ring.
- Interpolation.BilinearAccepted: the values at accepted points whose reads leave the data; Interpolation.ReadsStayInDataExactly says which tables have such points.
- MpuV8.Mpu.LoadEx: tables of more than 2^29 rows, which a 32-bit address space does not hold; the number of implemented regions is not bounded.
- FrameHandover.SpinEnds: that frames keep ending is not claimed; the polls of the spin loop are steps of the state machine, and other interrupt sources, which the handler ignores, have no step.
- FrameHandover.ConfirmsInOrder: the three driver accesses are steps of a state machine on values and not a method, because the loop ends through another agent.
- Floating point, FIR, FFT, matrix and LMS routines: declarations only, or about the rounding of floats.
- `arm_pid_q31`, the other clips, the Q31 linear and the Q31 and Q15 bilinear interpolation: they would repeat the methods used here.
- `arm_pid_init_q15` and the reciprocal and sine tables: prototypes or `extern` declarations; derived gains, table accuracy and sine values are hypotheses.
- The RBAR macro for Armv8-M: it masks with a bit position; table words are opaque in `MpuV8`.
- TrustZone copies, barriers, inline assembly, register-layout structures, clocks, the touch controller, FreeRTOS, lwIP and emWin: foreign calls and plumbing.
