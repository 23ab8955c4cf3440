# Fixed-point kernels and priority code of CMSIS, modelled and proved in Dafny

This project models the arithmetic of `CMSIS/Include/arm_math.h` that is written out as code in that header, and three
pieces of the core headers beside it, and proves what they compute. `dafny verify dfyconfig.toml` checks everything.

Machine integers are mathematical integers. The functions `S8`, `S16`, `S32`, `S64` and `U32` of `FixedPoint` are the
conversions to a two's-complement or unsigned width, and `x >> k` on a signed value is division by `2^k`, rounding down.
Bit operators are the recursive functions of `Bits`, except in the packed priority registers, which are bit vectors.

| file | models |
|---|---|
| `IntegerFacts.dfy`, `Bits.dfy` | integer and bit facts used everywhere |
| `FixedPoint.dfy` | widths, clips, `__QADD`, `__QSUB`, the `__SSAT` and `__CLZ` loops |
| `Reciprocal.dfy` | the Newton reciprocals in 1.31 and 1.15 |
| `VelocityForm.dfy`, `PidQ31.dfy`, `PidQ15.dfy` | the PID recurrence, its textbook form, and the two controllers |
| `CircularBuffer.dfy`, `StrideCoverage.dfy` | the circular delay line and the strides that cover it |
| `LinearInterp.dfy`, `BilinearInterp.dfy` | table interpolation in one and two dimensions |
| `Clarke.dfy`, `Park.dfy`, `CurrentLoop.dfy` | the vector transforms of motor control, alone and in sequence |
| `BitReversal.dfy` | the software `__RBIT` |
| `NvicPriority.dfy`, `PriorityRegisters.dfy` | priority codes, and priorities packed in words |

Where the code and its documentation disagree, the model follows the code, and a lemma says exactly when they agree:

- `arm_pid_q31` is documented to saturate its output; it wraps (`PidQ31.SaturatesOnlyInRange`).
- `arm_clarke_q31` is documented to be free of overflow; it narrows a product before the saturating addition
  (`Clarke.BetaSaturatesIff`).
- The circular functions mention negative increments; only increments from 0 to the length stay in the ring, and of
  those only the ones whose sum with the largest offset fits 32 bits (`CircularBuffer.AdvanceStaysInRing`). The 16-bit
  write offset limits the length (`CircularBuffer.StoredOffsetIsExact`).
- The Park rotations are documented to be free of overflow; a product of two values of -2^31 is narrowed before the
  saturating addition (`Park.SaturatesIff`).
- The reciprocals have a branch for negative inputs; in 1.31 every negative input gives the most positive number
  (`Reciprocal.AccurateIffPositive31`).
- The bilinear guard compares the index along X with the number of rows. It rejects interior points of oblong tables
  (`BilinearInterp.GuardFitsInterior`) and accepts points whose reads leave the table
  (`BilinearInterp.GuardKeepsInTable`).
- Linear interpolation weighs with `0xFFFFF` instead of `0x100000`, so positive table points come out one less
  (`LinearInterp.TablePointReproduced`), which also breaks monotonicity at zero (`LinearInterp.InterpMonotone`).

## Model

| member | source | states |
|---|---|---|
| FixedPoint.ClipQ63IsSaturation | CMSIS/Include/arm_math.h:510-515 | the comparison of the high word with the sign of the low word and the exclusive or make an exact saturation to 32 bits, for every 64-bit input |
| FixedPoint.ClipQ31IsSaturation | CMSIS/Include/arm_math.h:540-545 | the same for saturation to 16 bits |
| FixedPoint.QaddQsubSaturate | CMSIS/Include/arm_math.h:925-941 | addition and subtraction saturate the exact result |
| FixedPoint.Ssat | CMSIS/Include/arm_math.h:692-724 | the doubling loop clamps to [-2^(y-1), 2^(y-1) - 1] for every width from 1 to 32, although its bound wraps at 32 |
| FixedPoint.Clz | CMSIS/Include/arm_math.h:569-582 | for every non-zero word the mask walk ends and returns the count that places its highest one |
| Reciprocal.Newton31Exact | CMSIS/Include/arm_math.h:618-627 | for all inputs of either sign, a 1.31 step is the saturated plain Newton step exactly unless both factors are -2^31 |
| Reciprocal.Newton15Exact | CMSIS/Include/arm_math.h:669-678 | for all inputs of either sign, the unsigned words of a 1.15 step drop out: it is the plain Newton step narrowed to 16 bits |
| Reciprocal.Newton31Converges | CMSIS/Include/arm_math.h:618-627 | for every normalised input and every positive estimate, one step has a positive new defect below the scaled square of the old one plus 3 * 2^31 (2 * 2^31 from below), and neither the unsigned arithmetic nor the clip changes a value |
| Reciprocal.Newton15Converges | CMSIS/Include/arm_math.h:669-678 | the same in 1.15 with 3 * 2^15; the narrowing loses no bit and the commented-out clip is not needed |
| Reciprocal.TwoSteps31 | CMSIS/Include/arm_math.h:618-627 | a seed with a defect of at most 2^54 ends below 2^61 / I by less than 13 units |
| Reciprocal.TwoSteps15 | CMSIS/Include/arm_math.h:669-678 | a seed with a defect of at most 2^22 ends below 2^29 / I by less than 5 units |
| Reciprocal.SeedDefect31 | CMSIS/Include/arm_math.h:608-616 | a normalised positive input selects the segment it lies in, and a table accurate at the segment ends has a seed with a defect of at most 2^54 |
| Reciprocal.SeedDefect15 | CMSIS/Include/arm_math.h:659-667 | the same in 1.15 with 2^22 |
| Reciprocal.MidpointTablesAreSeeds | CMSIS/Include/arm_common_tables.h:35-36 | tables of 64 entries that meet the seed requirement exist in both formats |
| Reciprocal.AccurateIffPositive31 | CMSIS/Include/arm_math.h:599-630 | with a sound table the result is accurate exactly for positive inputs; for negative ones it is always 0x7FFFFFFF |
| Reciprocal.AccurateWhenPositive15 | CMSIS/Include/arm_math.h:650-681 | with a sound table every positive 1.15 input gives an accurate result, from below |
| Reciprocal.NegativeInaccurate15 | CMSIS/Include/arm_math.h:654-678 | a negative 1.15 input, with the seed of the midpoint table, whose result is no reciprocal |
| Reciprocal.NegativeAccurate15 | CMSIS/Include/arm_math.h:654-678 | another negative input whose result wraps into an accurate reciprocal, so the sign of the input is not an exact condition |
| Reciprocal.ArmRecipQ31 | CMSIS/Include/arm_math.h:589-634 | the input is normalised to the top half, the returned shift is right, the result is two steps from the indexed seed, within 13 units below the reciprocal of a positive input |
| Reciprocal.ArmRecipQ15 | CMSIS/Include/arm_math.h:640-685 | the same in 1.15, within 5 units |
| VelocityForm.Telescope | CMSIS/Include/arm_math.h:4805-4814 | with the documented gains, one step of the recurrence adds to the textbook proportional-integral-derivative value exactly its product sum |
| VelocityForm.RoundingDrift | CMSIS/Include/arm_math.h:4805-4814 | after N samples the scaled recurrence is below the textbook value by less than N units, never above |
| PidQ31.Pid.Process | CMSIS/Include/arm_math.h:4894-4923 | the method updates the state array to the state of the step function and returns its output |
| PidQ31.StepModulo | CMSIS/Include/arm_math.h:4901-4914 | whatever overflows in the 64-bit accumulator, the output is the exact scaled sum plus the last output modulo 2^32 |
| PidQ31.SaturatesOnlyInRange | CMSIS/Include/arm_math.h:4886-4914 | the documented saturated output is produced exactly when the exact output fits, apart from two named values |
| PidQ31.WrapsAtFullScale | CMSIS/Include/arm_math.h:4911-4914 | a full-scale output driven up by one unit comes out at the bottom |
| PidQ31.RunModulo | CMSIS/Include/arm_math.h:4894-4923 | over any run from reset the output is the unbounded recurrence modulo 2^32 and the memory holds the last two inputs |
| PidQ31.OutputIsPositional | CMSIS/Include/arm_math.h:4805-4814 | over any run from reset the output is congruent modulo 2^32 to the textbook law rounded down by less than one unit per sample, and equals it whenever that fits, even after earlier wraps |
| PidQ15.PidPortable.Process | CMSIS/Include/arm_math.h:4960-4981 | the output is the clamp of the last output plus the scaled product sum, with every intermediate value inside its type |
| PidQ15.PidDsp.Process | CMSIS/Include/arm_math.h:4948-4981 | the same method on packed gains and packed memory, with the 64-bit accumulating instruction, follows the packed step function |
| PidQ15.SmuadPair | CMSIS/Include/arm_math.h:1019-1026 | on any two packed operands the packed multiply is the sum of both products as a word |
| PidQ15.SmlaldPair | CMSIS/Include/cmsis_gcc.h:1736-1751 | on any two packed operands the packed accumulate adds both products to any 64-bit sum modulo 2^64 |
| PidQ15.SmuadSignExtended | CMSIS/Include/arm_math.h:1019-1026 | on sign-extended operands the packed multiply gives the product, plus one when both are negative |
| PidQ15.DspAccumulateExact | CMSIS/Include/arm_math.h:4948-4959 | the packed accumulator is the exact sum plus that carry, for all gains and memories |
| PidQ15.SmlaldInCIff | CMSIS/Include/arm_math.h:989-998 | the C form of the packed multiply-accumulate, compiled where the instruction is missing, equals the instruction exactly unless both operands are 0x80008000, when it is 2^32 less |
| PidQ15.DspStepVersusStep | CMSIS/Include/arm_math.h:4948-4972 | in one step from any memory the packed output is the exact saturated sum with the carry, between 0 and the carry above the portable one |
| PidQ15.BuildsStayClose | CMSIS/Include/arm_math.h:4941-4981 | after every run from the same memory the packed output is above the portable one by at most the number of steps with `A0` and the input both negative |
| PidQ15.BuildsAgreeIff | CMSIS/Include/arm_math.h:4941-4981 | the two builds have the same memory after every run from every memory exactly when `A0` is not negative or all three gains are even |
| PidQ15.GapNeverGrows | CMSIS/Include/arm_math.h:4968-4977 | two runs that differ in the starting output keep their order, and their gap never grows from any point of the run to its end |
| PidQ15.ExactWhileInRange | CMSIS/Include/arm_math.h:4966-4972 | all outputs of a run equal the unbounded recurrence exactly when that always fits 16 bits |
| PidQ15.OutputIsPositional | CMSIS/Include/arm_math.h:4805-4814 | such a run follows the textbook law to less than one unit per sample |
| CircularBuffer.CircularWrite | CMSIS/Include/arm_math.h:5970-6007 | the loop copies the strided samples to the walked offsets, in order, also when the source is the ring itself, and stores the final offset in 16 bits |
| CircularBuffer.CircularRead | CMSIS/Include/arm_math.h:6014-6064 | the loop copies the walked offsets to the cycled destinations, in order, also when the destination is the ring itself, and returns the final offset |
| CircularBuffer.CopiedIsPlaced | CMSIS/Include/arm_math.h:5984-6002 | from another buffer, or from cells of the same one that are not written before they are read, the copies are of the original samples |
| CircularBuffer.AdvanceStaysInRing | CMSIS/Include/arm_math.h:5995-5998 | for every positive length, every offset of the ring is kept in the ring exactly by increments from 0 to the length whose largest sum with an offset fits 32 bits |
| CircularBuffer.OffsetIsResidue | CMSIS/Include/arm_math.h:5995-5998 | for those increments access k is at (start + k * increment) mod L |
| CircularBuffer.StoredOffsetIsExact | CMSIS/Include/arm_math.h:6005-6006 | the 16-bit stored offset is the walked one for every start and every such increment exactly when L is at most 2^16 |
| CircularBuffer.WritesConcatenate | CMSIS/Include/arm_math.h:5970-6007 | any sequence of unit-stride block writes leaves the buffer and offset of one write of the whole stream |
| CircularBuffer.RingHoldsStream | CMSIS/Include/arm_math.h:5970-6007 | after any sequence of block writes the ring holds exactly the last min(total, L) samples, each in its slot |
| CircularBuffer.OtherCellsKept | CMSIS/Include/arm_math.h:5970-6007 | a cell that no sample of the stream falls in keeps its contents |
| CircularBuffer.ReadReturnsHistory | CMSIS/Include/arm_math.h:6014-6064 | a read that starts d samples back, d at most the total and L, returns the stream from d samples back |
| CircularBuffer.WriteBlocks | CMSIS/Include/arm_math.h:5970-6007 | performing the block writes on the ring leaves the buffer and offset of the write sequence |
| CircularBuffer.WriteThenRead | CMSIS/Include/arm_math.h:5970-6064 | performing any block writes and then a read from d samples back stores the stream from d samples back at the destinations |
| CircularBuffer.DestinationIsResidue | CMSIS/Include/arm_math.h:6042-6048 | when the destination stride divides its length and starting distance, the destination cycles through those slots |
| CircularBuffer.DestinationStaysInCycle | CMSIS/Include/arm_math.h:6042-6048 | the destinations of a positive stride never leave their cycle exactly when the stride divides both |
| CircularBuffer.DestinationHoldsRead | CMSIS/Include/arm_math.h:6037-6061 | the destination holds each of the last samples read, one per slot of its cycle |
| StrideCoverage.CoprimeStrideCovers | CMSIS/Include/arm_math.h:5989-6002 | for every stride that stays in the ring, the first L accesses visit L different slots exactly when stride and length have no common divisor |
| LinearInterp.IndexIsFloor | CMSIS/Include/arm_math.h:5623-5641 | the two masks on a signed 12.20 input are its floor and remainder, also for negative inputs |
| LinearInterp.Q15IsPlain | CMSIS/Include/arm_math.h:5613-5655 | the 1.15 function is the unbounded interpolation: no accumulation or narrowing wraps for any table |
| LinearInterp.Q7IsPlain | CMSIS/Include/arm_math.h:5670-5712 | the same for 1.7, whose index and accumulator are 32 bits |
| LinearInterp.PlainRange | CMSIS/Include/arm_math.h:5636-5653 | an interior value lies in [min - 1, max] of its two table points |
| LinearInterp.PlainError | CMSIS/Include/arm_math.h:5646-5653 | an interior value is the exact interpolant less a 2^-20 part of the left point, rounded down; outside the table the value is exact |
| LinearInterp.TablePointReproduced | CMSIS/Include/arm_math.h:5646-5653 | a table point is reproduced exactly when it is not positive or is the last; otherwise it comes out one less |
| LinearInterp.SegmentsJoin | CMSIS/Include/arm_math.h:5636-5653 | the last point of a segment equals the first of the next; the last table point has no next segment, and a positive one is approached one short and then reached exactly |
| LinearInterp.InterpMonotone | CMSIS/Include/arm_math.h:5613-5712 | for a nondecreasing table both narrow outputs are nondecreasing from 0 on, and over all inputs exactly when the first value is not positive or is the only one |
| LinearInterp.Q31NeverWraps | CMSIS/Include/arm_math.h:5576-5594 | in the interior neither the sum nor the final doubling wraps, for any table down to -2^31 |
| LinearInterp.Q31Error | CMSIS/Include/arm_math.h:5555-5597 | for every input the 1.31 result is less than 5 units below and at most 1 unit above the exact interpolant |
| LinearInterp.Q31AlmostMonotone | CMSIS/Include/arm_math.h:5555-5597 | a nondecreasing table gives a 1.31 output that dips by at most 2 units from 0 on, and by at most 4 from a negative input |
| LinearInterp.ConstantTablesDip | CMSIS/Include/arm_math.h:5585-5592 | two constant tables reach both bounds |
| BilinearInterp.InteriorAccepted | CMSIS/Include/arm_math.h:6980-6985 | an interior point is interpolated exactly when its X index is below the number of rows and its Y index below the number of columns |
| BilinearInterp.GuardFitsInterior | CMSIS/Include/arm_math.h:6980-6985 | for every table, all interior points are interpolated exactly when neither the largest X index reaches the number of rows nor the largest Y index the number of columns |
| BilinearInterp.GuardKeepsInTable | CMSIS/Include/arm_math.h:6980-7021 | for every full table, all points the guard accepts have their four reads inside it exactly when the cell of the last accepted point is inside |
| BilinearInterp.Q7Value | CMSIS/Include/arm_math.h:7051-7098 | for every table and point whose reads exist, the 1.7 result is zero off the grid and otherwise the doubly blended value of the four cells at the index rounded down, in [min - 1, max], the last column and row included |
| BilinearInterp.Q15Value | CMSIS/Include/arm_math.h:6973-7024 | likewise in 1.15, where the result is the exact value less the remainders that the four shifts lose, rounded down: one unit below the rounded exact value exactly when that loss, at most 45 * 0xFFFFF, exceeds the part rounded off |
| BilinearInterp.ZeroTable | CMSIS/Include/arm_math.h:7003-7024 | a table of zeros is interpolated to zero everywhere |
| BilinearInterp.Q7IsTwoStep | CMSIS/Include/arm_math.h:6757 | bilinear minus two-step linear interpolation, along X and then Y, is 0 or 1 unit for every accepted interior point |
| BilinearInterp.Q15IsTwoStep | CMSIS/Include/arm_math.h:6757 | in 1.15 the difference is at most one unit either way |
| Clarke.BetaSaturatesIff | CMSIS/Include/arm_math.h:5085-5097 | the result is the saturated sum exactly for Ib up to 1859775393 in magnitude; beyond, it is the saturation of a sum off by 2^32 and has the wrong sign |
| Clarke.RoundTrip | CMSIS/Include/arm_math.h:5176-5195 | forward and back returns Ia exactly and Ib with an error in [-3, 1] whenever the forward transform does not wrap or saturate |
| Clarke.InverseStable | CMSIS/Include/arm_math.h:5176-5195 | input errors of a and b units change the inverse by at most b + (a + 1) / 2 units, saturation included |
| Park.RotationsSaturate | CMSIS/Include/arm_math.h:5290-5319 | on all inputs both rotations saturate the sum and difference of the narrowed products |
| Park.SaturatesIff | CMSIS/Include/arm_math.h:5283-5319 | both rotations return the saturated exact sums, as documented, exactly when no component of the vector and of the angle are both -2^31 |
| Park.ForwardExact | CMSIS/Include/arm_math.h:5290-5319 | for a vector inside the radius and a sine and cosine at most one unit outside the unit circle nothing wraps or saturates, with the error range of each component |
| Park.RoundTrip | CMSIS/Include/arm_math.h:5403-5432 | under the same conditions rotating forward and back saturates nowhere and returns the vector with errors below 4 and 5 units plus the part by which the circle is missed |
| CurrentLoop.RoundedOnCircle | CMSIS/Include/arm_math.h:5280-5281 | the sine and cosine of every angle, rounded to the nearest 1.31 value or toward zero, are within three units of the unit circle |
| CurrentLoop.PhasesReturn | CMSIS/Include/arm_math.h:5079-5432 | Clarke, Park, inverse Park and inverse Clarke in sequence return phase currents that the forward Clarke transform neither wraps nor saturates, with a vector inside the radius, within 3 + t and 7 + t + (t + 4) / 2 units, where sine and cosine are within t units of the unit circle and at most one outside it |
| CurrentLoop.EveryAngleReturns | CMSIS/Include/arm_math.h:5079-5432 | for every angle, with sine and cosine rounded to 1.31, the same currents return within 6 and 13 units |
| BitReversal.Rbit | CMSIS/Include/cmsis_gcc.h:859-868 | the early-stopping loop returns the reversed word for every width, whatever input bits it carries above the reversed ones |
| BitReversal.ReversedBit | CMSIS/Include/cmsis_gcc.h:845-851 | bit i of the reversed word is bit w - 1 - i of the input |
| BitReversal.ReversalIsInvolution | CMSIS/Include/cmsis_gcc.h:845-851 | reversing a word twice gives it back |
| NvicPriority.FieldWidths | CMSIS/Include/core_armv8mml.h:2360-2365 | the implemented byte positions above the group are the preemption field and the others the sub-priority field, so the widths add up to the implemented bits for every group |
| NvicPriority.DecodeEncode | CMSIS/Include/core_armv8mml.h:2358-2396 | decoding an encoded pair gives both parts cut to their widths |
| NvicPriority.EncodeDecode | CMSIS/Include/core_armv8mml.h:2358-2396 | encoding a decoded priority gives its implemented low bits |
| NvicPriority.EncodeIsLexicographic | CMSIS/Include/core_armv8mml.h:2367-2370 | codes are ordered as numbers exactly as the pairs are ordered by preemption, then sub-priority |
| NvicPriority.RegisterKeepsLowBits | CMSIS/Include/core_armv8mml.h:2311-2344 | the register byte holds the implemented low bits of the priority above zeros, and reading it back gives those bits |
| NvicPriority.LoadedDrops | CMSIS/Include/core_armv8mml.h:2333-2344 | reading a byte, whatever it holds, divides off its unimplemented low bits |
| NvicPriority.PairThroughRegister | CMSIS/Include/core_armv8mml.h:2311-2396 | a pair encoded, stored, read and decoded comes back cut to its widths |
| PriorityRegisters.Registers.SetPriority | CMSIS/Include/core_cm0plus.h:825-838 | setting a priority replaces the byte of that interrupt in the byte map and nothing else |
| PriorityRegisters.Registers.GetPriority | CMSIS/Include/core_cm0plus.h:849-860 | getting a priority reads that byte, shifted down |
| PriorityRegisters.Registers.SetAll | CMSIS/Include/core_cm0plus.h:825-860 | performing a sequence of settings on the registers leaves the byte map the sequence describes, in which every number reads as last set or as before |
| PriorityRegisters.SetIp | CMSIS/Include/core_cm0plus.h:827-831 | the read, clear and insert on an interrupt word refines the update of the byte map |
| PriorityRegisters.SetShp | CMSIS/Include/core_cm0plus.h:832-837 | the same for the exceptions -8 to -1 |
| PriorityRegisters.IpLayout | CMSIS/Include/core_cm0plus.h:707-709 | interrupts 4 k to 4 k + 3 are the four bytes of word `IP[k]`, the lowest number in the lowest byte |
| PriorityRegisters.ShpLayout | CMSIS/Include/core_cm0plus.h:707-709 | exceptions 4 k - 8 to 4 k - 5 are the four bytes of word `SHP[k]` in the same order |
| PriorityRegisters.BytesDetermineWords | CMSIS/Include/core_cm0plus.h:707-709 | register contents with the same byte map are the same, so the byte map loses nothing |
| PriorityRegisters.StoredAligned | CMSIS/Include/core_cm0plus.h:829-836 | the stored byte is the implemented bits of the priority at its top and zeros below them |
| PriorityRegisters.LoadedDrops | CMSIS/Include/core_cm0plus.h:854-858 | reading a byte, whatever it holds, drops exactly its unimplemented low bits |
| PriorityRegisters.ReadsLastSet | CMSIS/Include/core_cm0plus.h:825-860 | after any sequence of settings the priority read is the implemented bits of the last one set for that number, or the former one |

## Left out

- Reciprocal.AccurateWhenPositive15: one direction only, because for negative inputs the wrapping 1.15 steps are accurate for some and inaccurate for others, as the two lemmas beside it show.
- Reciprocal.ArmRecipQ31: does not take 0, on which the count of leading zeros does not end, or -2^31, whose negation overflows.
- Reciprocal.ArmRecipQ15: does not take 0, on which the count does not end, or -32768, whose magnitude has 16 leading zeros, so that the shift count 16 - 17 wraps.
- Reciprocal.MidpointTablesAreSeeds: shows that sound tables exist; the contents of the declared tables are not part of this model.
- PidQ15.PidDsp.Process: `__SMLALD` is inline assembly (`CMSIS/Include/cmsis_gcc.h:1736-1751`); its effect, both products added in 64 bits, is that of the Arm instruction SMLALD. Words are read in little-endian order.
- Clarke.RoundTrip: for Clarke inputs whose forward sum saturates, the lost part is not quantified.
- CircularBuffer.CircularWrite: the ring begins at index 0 of its array; two rings laid over each other at different bases are not captured.
- BilinearInterp.BilinearQ15: what reads outside the table return is not modelled; for such points (`Readable`) the function has no value.
- PriorityRegisters.Registers.SetPriority: the read-modify-write is one step; interrupts between the read and the write, and volatile access, are not modelled.
- `arm_bilinear_interp_q31`, the floating-point versions, and every function the header only declares.
- `clip_q63_to_q15` and `clip_q31_to_q7`, and the packed helpers the controllers do not use.
- Gains are taken as documented; the initialisation functions that derive them are only declared.
- Pointer arithmetic is index arithmetic; reading past an object is excluded by preconditions.
- Register layouts, barriers, exclusive access and inline assembly.
