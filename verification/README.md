# A verified model of the RandomX computation

This project models the parts of the RandomX implementation whose correctness does not show locally, and proves what
they promise for all inputs, all runs and all reachable states.

* **The virtual machine.** `Machine`, `Compact` and `Interpreter` model the compact decoder and interpreter
  (`randomx-sp1`), `Reference` and `ReferenceRuns` the reference ones (`randomx-core`). `Branches` and `Termination` prove that every
  iteration ends: branch targets come from the last-writer table, so a repeated region holds no other branch and no
  other write to its register, and a carry argument on the condition byte rules out a third taken branch.
  `Refinement` and `Iterations` prove that the compact machine does what the reference machine does, word by word and
  over whole runs of 2048 iterations. `ELanes` uses the sharp count of 765 effects to keep the E registers normal.
* **Directed-rounding binary64.** `Binary64` gives the format and IEEE 754 rounding over the reals, `SoftFloat` the code
  of `softfp`, `SoftFloatProofs` the proof that comparing with any nearest result in 128 bits and moving at most one
  place yields the correctly rounded result. `SoftFpu` closes the circle: this unit satisfies what `ELanes` and
  `Refinement` ask of a floating-point unit.
* **SuperscalarHash.** `Superscalar`, `PortMap`, `ByteStream` and `ScGenerator` model the program generator, a pipeline
  scheduler with look-ahead, discard and retry; `ScHistory` says what its history of committed macro-ops owes to decode
  buffers, port map, registers and program, and `ScMachine` what a byte stream makes of it all. `ScExecutor` proves that the paired executor refines the sequential one.
* **Argon2d fill.** `Argon2Block` proves the fused compression function against section 3.5 of RFC 9106, `Argon2Fill`
  the fixed-parameter passes against the reference window of section 3.4.2 of RFC 9106.
* **Reciprocals** and **Monero**: bit-serial division, the CryptoNote tree hash and the difficulty check.

Machine words are integers with explicit wrap-around (`Words`); bitwise operations are recursive functions on them.
Code that changes state step by step is imperative here too: the machine and the generator are classes, the port map,
register files, scratchpad, Argon2 lane and hash level are arrays. Each such method is proved against a function or a
predicate, and the lemmas are about those. Uninitialised memory is a datatype with an explicit uninitialised case.

The hash functions, the Argon2 permutation, the dataset, the round-to-nearest operations and the byte stream of the
generator are parameters. The floating-point unit of the machine is a record of five operations; each theorem states
what it needs of it (commutative addition and multiplication, or correct rounding).

## Model

| member | source | states |
|---|---|---|
| Words.ZeroOrPowerOfTwo | randomx-core/src/superscalar.rs:187-189 | `v & (v - 1) == 0` in wrapping arithmetic singles out exactly zero and the powers of two |
| Words.SignExtendIsCast | randomx-core/src/common.rs:4-11 | or-ing ones above a negative 32-bit immediate is the sign-extending cast modulo 2^64 |
| Words.RotateRightBits | randomx-sp1/src/lib.rs:1046-1060 | bit i of a word rotated right by n is bit (i + n) mod 64 of the word, for every i below 64 |
| Words.RotateLeftBits | randomx-sp1/src/lib.rs:1062-1076 | bit i of a word rotated left by n is bit (i - n) mod 64 of the word |
| Words.RotationsInverse | randomx-sp1/src/lib.rs:1046-1076 | the two rotations undo each other, in both orders |
| Words.MulhHalves | randomx-core/src/common.rs:21-23 | high half and wrapped product make up the exact unsigned product |
| Words.SmulhHalves | randomx-core/src/common.rs:25-29 | read as a signed number, the high half and the wrapped product make up the exact signed product |
| Reciprocals.RandomxReciprocal | randomx-core/src/common.rs:46-73 | for every non-zero divisor the two loops compute floor(2^(63 + bit length) / divisor) modulo 2^64, although the doubled remainder may wrap |
| Reciprocals.LargestQuotient | randomx-core/src/common.rs:31-73 | for a divisor that is no power of two this is floor(2^x / divisor) below 2^64, for the largest such x: every larger exponent gives a quotient of at least 2^64 |
| Reciprocals.PowerOfTwoReciprocal | randomx-core/src/common.rs:46-73 | a power of two yields zero, its quotient 2^64 having wrapped |
| Reciprocals.RoundsDivide | randomx-core/src/common.rs:62-71 | after any number of rounds on wrapping words the pair is the exact quotient, reduced to 64 bits, and the exact remainder of the doubled dividend |
| Reciprocals.WrappingIsExact | randomx-core/src/common.rs:62-71 | none of the five wrapping operations differs from exact arithmetic in any round if and only if the divisor is at most 2^63 and no power of two |
| Reciprocals.LargestDivisor | randomx-core/src/common.rs:62-71 | the divisor 2^64 - 1 shows the failure: its first doubled remainder wraps to zero |
| Machine.OffsetInBounds | randomx-sp1/src/lib.rs:889-957 | every masked scratchpad byte offset is a multiple of 8 and indexes one of the 262144 words |
| Machine.LineFits | randomx-sp1/src/lib.rs:434-453 | every mixing line is line-aligned and its eight words lie in the scratchpad |
| Machine.AlignedAddress | randomx-sp1/src/lib.rs:464-468 | a masked memory register is a multiple of 64 and at most the mask |
| Machine.ConvertHalves | randomx-core/src/m128.rs:290-294 | the lanes of a loaded word are the conversions of its two signed halves, the low half first |
| Machine.ModeBits | softfp/src/lib.rs:29-42 | odd rounding-mode codes round positive results down, codes from 2 on round negative results up |
| Machine.MaskLaneFields | randomx-sp1/src/lib.rs:1206-1211 | masking keeps the low 56 bits of the value under the mask |
| Machine.SmallPositiveFields | randomx-sp1/src/lib.rs:1228-1234 | the mantissa is the low 52 entropy bits, and the exponent counts up from that of 1 with the top five |
| Machine.StaticExponentFields | randomx-sp1/src/lib.rs:1241-1245 | the mask exponent is 0x300 plus sixteen times the top four entropy bits |
| Machine.MixOut | randomx-sp1/src/lib.rs:464-483 | a valid state stays valid and its memory registers stay such that the dataset offset is 64-aligned with item index at most 34078718, which the read in its body requires |
| Machine.InitVm | randomx-sp1/src/lib.rs:490-525 | initialisation yields in-range read registers, an aligned dataset offset and an aligned `ma`, while `mx` may be unmasked |
| Branches.ExecKeepsRegister | randomx-sp1/src/lib.rs:959-1204 | executing an instruction changes no integer register but those that the decoder counts as written |
| Branches.OnlyBranchesJump | randomx-sp1/src/lib.rs:959-1204 | no instruction but CBRANCH changes the program counter |
| Branches.IncrementIsGood | randomx-sp1/src/lib.rs:691-701 | the branch increment has its condition bit set and the bit below clear, so its condition byte is odd |
| Branches.DecodedWord | randomx-sp1/src/lib.rs:527-717 | every raw word decodes to an instruction with aligned, bounded operand offsets, that writes only registers recorded as touched; a branch touches all of them, aims at its register's recorded last writer and has a well-formed increment |
| Branches.DecodeStructured | randomx-sp1/src/lib.rs:137-165 | in every decoded program the region between a branch's target and the branch holds no other branch and no other write to its register, and behind each entry of the usage table its register is not written and no branch stands |
| Branches.ConditionIsRange | randomx-sp1/src/lib.rs:1187-1193 | the branch condition says that the register modulo 2^(shift + 8) is below 2^shift |
| Branches.NoThreeInARow | randomx-sp1/src/lib.rs:1187-1193 | if the condition holds after two consecutive additions of a branch increment, it fails after the third |
| Termination.TraceInv | randomx-sp1/src/lib.rs:454-461 | after any number of steps the counts of executions and taken branches and the controlling register of the next branch satisfy the loop invariant |
| Termination.ExecutionCounts | randomx-sp1/src/lib.rs:454-461 | at every point of every iteration, for every program and start, no instruction has run more than three times and no branch was taken more than twice |
| Termination.IterationTerminates | randomx-sp1/src/lib.rs:454-461 | every iteration of every program ends within three steps per instruction, 768 for 256 instructions |
| Termination.BoundedEffects | randomx-sp1/src/lib.rs:454-461 | an iteration of 256 instructions executes at most 765 instructions that are not branches |
| Termination.TraceStable | randomx-sp1/src/lib.rs:454-461 | an iteration that has reached the end of the program stays there, so its final state is unique |
| Refinement.FieldsAgree | randomx-core/src/program.rs:304-309 | the two decoders extract the same opcode, registers, modifier and immediate from every raw word |
| Refinement.LoadAgrees | randomx-sp1/src/lib.rs:735-756 | memory operands, with or without a register, read the same scratchpad word in both machines |
| Refinement.ArithmeticMatches | randomx-core/src/program.rs:310-413 | additions, subtractions and multiplications: same registers, scratchpad, counter, mode and usage table |
| Refinement.ReciprocalMatches | randomx-core/src/program.rs:414-435 | the precomputed reciprocal multiplication agrees, including the no-op cases |
| Refinement.BitwiseMatches | randomx-core/src/program.rs:436-504 | negation, xor, rotations and swaps agree, swaps and self-swaps included |
| Refinement.FloatMatches | randomx-core/src/program.rs:505-585 | floating-point instructions agree for every unit whose addition and multiplication commute |
| Refinement.ControlMatches | randomx-core/src/program.rs:586-630 | branches, rounding-mode changes, stores and no-ops agree |
| Refinement.WordRefines | randomx-core/src/program.rs:304-630 | for every raw word, usage table and state, the compact decoder and effect give the state and usage table of the reference pair, which does not panic |
| Iterations.ProgramRefines | randomx-core/src/program.rs:267-293 | whole programs decode to the same usage table and to instructions that agree in every state |
| Iterations.StepsRefine | randomx-core/src/vm.rs:327-332 | any number of reference steps gives the state of as many compact steps |
| ReferenceRuns.MixInRefines | randomx-core/src/vm.rs:313-325 | the reference's bounds-checked loading loops do not panic and load what the compact machine loads |
| ReferenceRuns.MixOutRefines | randomx-core/src/vm.rs:334-355 | its dataset loop, register exchange and store loops do not panic and leave the scratchpad and registers of the compact machine, also when the two lines overlap |
| Iterations.IterationRefines | randomx-core/src/vm.rs:303-358 | one whole iteration, address computation and both mixing phases included, gives the same state in both machines |
| Iterations.RunRefines | randomx-core/src/vm.rs:295-360 | for every program image and state, the 2048-iteration reference run does not panic and ends in the state of the compact run |
| Interpreter.DecodeInstruction | randomx-sp1/src/lib.rs:527-717 | updates the usage table in place to that of the decoding function and returns its instruction |
| Interpreter.DecodeProgram | randomx-sp1/src/lib.rs:137-165 | two words at a time, the loop decodes the program that the decoding function gives |
| Interpreter.Vm.Execute | randomx-sp1/src/lib.rs:959-1204 | updates registers, scratchpad, counter and mode in place to the effect of the instruction and nothing else |
| Interpreter.Vm.RunInstructions | randomx-sp1/src/lib.rs:454-461 | the fetch loop terminates with every fetch in bounds and ends in the unique final state of the iteration |
| Interpreter.Vm.MixIn | randomx-sp1/src/lib.rs:443-453 | the three loops leave the state that mixing in prescribes |
| Interpreter.Vm.MixOut | randomx-sp1/src/lib.rs:464-483 | dataset read, register exchange and the write-back loops leave the state that mixing out prescribes, also when the two lines overlap |
| Interpreter.Vm.Init | randomx-sp1/src/lib.rs:490-525 | in-place initialisation gives the specified initial state |
| Interpreter.Vm.Run | randomx-sp1/src/lib.rs:415-488 | the whole run on arrays ends in the state of the 2048-fold specification, for which RunRefines is proved |
| Binary64.AtIncreases | softfp/src/lib.rs:57-75 | consecutive bit patterns are consecutive values: the order of positions is the order of values |
| Binary64.NearMirror | softfp/src/lib.rs:139-154 | being nearest is symmetric under negation |
| SoftFloat.FloorOfNearest | softfp/src/lib.rs:114-154 | given any nearest value and its true relation to the exact result, moving down when it is above gives the greatest representable value not above |
| SoftFloat.CeilingOfNearest | softfp/src/lib.rs:114-154 | the same upwards |
| SoftFloat.ApplyModeRounds | softfp/src/lib.rs:139-154 | with the true relation, the adjusted value is correctly rounded in every mode |
| SoftFloat.OverflowRounds | softfp/src/lib.rs:156-171 | when the nearest result overflows, each mode saturates or stays infinite as IEEE 754 demands |
| SoftFloatProofs.LosslessIsExact | softfp/src/lib.rs:77-95 | a comparison in which both coefficients and the shifted one fit 128 bits is the comparison of the exact values, although shift and truncation are those of u128 |
| SoftFloatProofs.MulLossless | softfp/src/lib.rs:351-366 | for all finite operands and any finite nearest result, the product of the coefficients fits 128 bits, and the comparison shifts by less than 128 and loses no bit |
| SoftFloatProofs.DivLossless | softfp/src/lib.rs:377-392 | the same for division by any finite non-zero divisor |
| SoftFloatProofs.SqrtLossless | softfp/src/lib.rs:407-416 | the same for the square root of any finite operand that is not negative |
| SoftFloatProofs.SumLossless | softfp/src/lib.rs:258-281 | same-sign addition: the shifted coefficient, the sum and the comparison fit 128 bits; nearest has a larger scale than the larger operand only at distance 53 or less, and is that operand beyond 75 |
| SoftFloatProofs.DifferenceLossless | softfp/src/lib.rs:282-304 | opposite-sign addition: the shifted coefficient, the difference, which is not negative, and the comparison fit 128 bits; nearest never has a larger scale, and is the larger operand beyond distance 75 |
| SoftFloatProofs.NearbyFits | softfp/src/lib.rs:77-95 | magnitudes within a factor of four with coefficients below 2^125 align without losing a bit |
| SoftFloatProofs.AlignedExact | softfp/src/lib.rs:258-304 | up to scale distance 75 the shifted coefficient and the aligned sum or difference fit 128 bits and are exact; up to 53 they stay below 2^125 |
| SoftFloatProofs.SmallSummand | softfp/src/lib.rs:258-304 | a summand below half an ulp of the larger operand leaves the nearest result at that operand |
| SoftFloatProofs.SmallSubtrahend | softfp/src/lib.rs:258-304 | so does a subtrahend below a quarter of an ulp, across a binade boundary too |
| SoftFloatProofs.SumRelates | softfp/src/lib.rs:258-304 | same-sign addition compares the true sum with the nearest result, also where that carries into the next binade |
| SoftFloatProofs.DifferenceRelates | softfp/src/lib.rs:258-304 | opposite-sign addition does, under any cancellation |
| SoftFloatProofs.AddRelationTrue | softfp/src/lib.rs:236-319 | for all finite operands and any nearest result the computed relation and sign are the true ones |
| SoftFloatProofs.AddRounds | softfp/src/lib.rs:236-319 | addition is correctly rounded in all four modes for all finite operands, overflow and underflow included |
| SoftFloatProofs.SubRounds | softfp/src/lib.rs:333-339 | so is subtraction, with its own nearest difference in nearest mode and the nearest sum with the negated operand otherwise |
| SoftFloatProofs.ZeroSumSign | softfp/src/lib.rs:307-318 | an exact zero sum of operands of opposite sign is -0 when rounding down; otherwise, and for zeros of equal sign in every mode, it is the zero that rounding to nearest gives |
| SoftFloatProofs.ZeroProductSign | softfp/src/lib.rs:351-366 | a zero product keeps the sign of the nearest result in every mode |
| SoftFloatProofs.ZeroQuotientSign | softfp/src/lib.rs:377-392 | so does a zero quotient |
| SoftFloatProofs.MulRounds | softfp/src/lib.rs:351-366 | multiplication is correctly rounded in all four modes for all finite operands |
| SoftFloatProofs.DivRounds | softfp/src/lib.rs:377-392 | so is division by any finite non-zero divisor |
| SoftFloatProofs.SqrtRounds | softfp/src/lib.rs:407-416 | so is the square root of any finite operand that is not negative |
| SoftFpu.SoftFpuRounds | softfp/src/lib.rs:323-416 | on top of any correct nearest operations, all five operations of the software unit are correctly rounded in every mode on finite operands, and products, quotients and roots keep infinities |
| SoftFpu.SoftFpuCommutes | softfp/src/lib.rs:236-366 | its addition and multiplication commute bit for bit when the nearest ones do |
| ELanes.MaskLaneRange | randomx-sp1/src/lib.rs:1206-1211 | a masked operand has a bit pattern from 2^-255 up to below 2 |
| ELanes.FloatMaskRange | randomx-sp1/src/lib.rs:1236-1245 | the mask drawn from any entropy has an exponent in that range |
| ELanes.GroupRange | randomx-sp1/src/lib.rs:1228-1234 | A lanes drawn from any entropy lie in [1, 2^32) |
| ELanes.RoundedAtLeast | softfp/src/lib.rs:139-170 | rounding in any mode cannot pass a power of two from above |
| ELanes.MulKeeps | randomx-sp1/src/lib.rs:1150-1160 | a product with an A lane does not lower the bound of an E lane |
| ELanes.DivHalves | randomx-sp1/src/lib.rs:1162-1174 | a quotient by a masked operand lowers it by at most a factor of two |
| ELanes.SqrtKeeps | randomx-sp1/src/lib.rs:1176-1185 | a root does not lower it |
| ELanes.TraceLanes | randomx-sp1/src/lib.rs:454-461 | after any number of steps every E lane is at least 2^-(255 + effects executed) or +infinity |
| ELanes.ELanesStayNormal | randomx-sp1/src/lib.rs:415-488 | at every step of every iteration of every run, under any CFROUND sequence, each E lane is +infinity or a positive normal of at least 2^-1020 |
| Superscalar.BufferHolds16 | randomx-core/src/superscalar.rs:602-633 | every decode buffer has three or four slots and sixteen bytes, so no prefix of it holds more |
| PortMap.ScheduleUop | randomx-core/src/superscalar.rs:1370-1399 | the earliest cycle with an idle suitable unit, or none; committing occupies P5 there if it is suitable and idle, else P0, else P1, and nothing else |
| PortMap.ScheduleMop | randomx-core/src/superscalar.rs:1335-1368 | the least cycle from its start at which all needed ports are free together, or none if there is none; committing books exactly the preferred units there, the first micro-op choosing first |
| PortMap.UnitsTaken | randomx-core/src/superscalar.rs:1335-1399 | a macro-op that fits takes one idle unit for each micro-op, each able to run it, and leaves all other entries alone |
| ByteStream.LittleEndianBytes | randomx-core/src/superscalar.rs:587-591 | a drawn word has the four bytes of the stream, lowest first |
| ByteStream.Generator.DrawRotation | randomx-core/src/superscalar.rs:271-276 | on a stream that does not starve it, the rejection loop ends with the first byte whose low six bits are not all zero, and leaves the stream behind that byte |
| ByteStream.Generator.DrawDivisor | randomx-core/src/superscalar.rs:340-345 | on such a stream the loop ends with the first word that is neither zero nor a power of two, and leaves the stream behind it |
| ScGenerator.SelectSource | randomx-core/src/superscalar.rs:123-154 | finds a source if and only if some register is ready, and then the ready one that the stream picks, or r5 where an IADD_RS must leave the other of two; only source and group parameter change |
| ScGenerator.SelectDestination | randomx-core/src/superscalar.rs:100-121 | finds a destination if and only if some register is eligible, and then the eligible one that the stream picks; only the destination changes |
| ScGenerator.CreateForSlot | randomx-core/src/superscalar.rs:192-370 | operation, modifier, immediate and group parameter are those that slot, buffer and stream determine; the first macro-op fits the slot, and multi-macro-op instructions start only where a following buffer continues them |
| ScGenerator.FetchNext | randomx-core/src/superscalar.rs:646-668 | the fetched buffer is the one that instruction, multiplication count and next byte determine, and its first slot is the right one for the second macro-op of an unfinished instruction |
| ScMachine.SlotOperations | randomx-core/src/superscalar.rs:192-219 | for every slot size, buffer type, last-slot flag and byte, which of the fourteen operations is made, as an if-and-only-if for each |
| ScMachine.BufferChoices | randomx-core/src/superscalar.rs:646-668 | for every instruction, multiplication count and byte, which of the six buffers follows, as an if-and-only-if for each |
| ScGenerator.SlotFits | randomx-core/src/superscalar.rs:812-923 | no macro-op exceeds its slot, and the place of its successor is the next slot or the next buffer |
| ScGenerator.OperandsChosen | randomx-core/src/superscalar.rs:836-879 | the looked-up registers are ready for the macro-op that needs them, also for high multiplies whose destination is chosen one macro-op early |
| ScHistory.PortsNext | randomx-core/src/superscalar.rs:1335-1399 | committing a macro-op on its preferred units keeps all entries of the history disjoint and exactly the busy ones of the port map, which stays the replay of the history |
| ScHistory.SlotsNext | randomx-core/src/superscalar.rs:812-923 | filling the next slot keeps the slots of the history in strictly increasing order, real, and large enough |
| ScHistory.RecordNext | randomx-core/src/superscalar.rs:884-923 | one more event either completes the current instruction, whose result cycle is that of its result macro-op, or leaves it unfinished; a dependent macro-op waits for the one before it |
| ScHistory.IssuesAreEvents | randomx-core/src/superscalar.rs:884-923 | all macro-ops of a completed instruction stand in the history, and its result cycle is the cycle of the event that is its result macro-op |
| ScHistory.ScheduledNext | randomx-core/src/superscalar.rs:900-923 | appending a timely instruction keeps the schedule, moves only its destination's latest write and counts a multiplication |
| ScMachine.RootsNext | randomx-core/src/superscalar.rs:814-824 | one more event keeps every started instruction tied to the place of the stream it was drawn from, and every emitted one to the fields drawn there |
| ScMachine.RoundProgress | randomx-core/src/superscalar.rs:814-924 | every round of the slot loop fills a slot, uses up a discard or ends the buffer |
| ScGenerator.ScGenerator.LookForSource | randomx-core/src/superscalar.rs:836-845 | a ready source within four cycles, or the proof that no register becomes ready in them |
| ScGenerator.ScGenerator.Discard | randomx-core/src/superscalar.rs:846-855 | a discard uses up one of 256 retries and leaves the machine between slots, otherwise the buffer is given up |
| ScGenerator.ScGenerator.CommitNext | randomx-core/src/superscalar.rs:880-922 | books the ports, records the result, fills the slot and retires a finished instruction exactly as the state function prescribes, keeping all invariants; it stops only when no cycle has the ports |
| ScGenerator.ScGenerator.FillSlot | randomx-core/src/superscalar.rs:814-924 | one round gives the state that the stream determines: it fills the slot, retries with one discard less, or stops for saturation or with nothing unfinished; no result is ever left without its instruction being retired |
| ScGenerator.Generate | randomx-core/src/superscalar.rs:782-927 | terminates, and the stream determines all results. The history of committed macro-ops fills the slots of the fetched buffers in order, none above its size and none executed before it is decoded; its port entries are disjoint, are those the scheduler prefers, and are exactly the busy ones of the final map. The instructions it completes are the program, at most 512 and well-formed, each with the operation and fields drawn at its place of the stream, reading its source no earlier than it is ready, strictly advancing its destination's ready cycle and not repeating that register's latest operation. The returned ready cycles are those of the last results; code size is the history's and at most 16 times the decode cycles. It stops only after 170 decode cycles, with 512 instructions, with a macro-op in cycle 170 or later, or when a macro-op fits in no cycle from where it may start |
| ScExecutor.ExtendedIsCast | randomx-core/src/common.rs:13-19 | the extended immediate is the cast of the immediate read as a signed 32-bit number |
| ScExecutor.DecodeRefines | randomx-core/src/superscalar.rs:697-736 | a predecoded well-formed instruction has in-bounds aligned offsets and the effect of the original, whose reciprocal is taken from the divisor |
| ScExecutor.Predecode | randomx-core/src/superscalar.rs:957-963 | the predecoded program holds in each pair's first instruction the byte offset of the handler for both opcodes |
| ScExecutor.ExecutePair | randomx-core/src/superscalar.rs:1224-1277 | the handler found through the stored offset performs the next two instructions |
| ScExecutor.ExecuteUnchecked | randomx-core/src/superscalar.rs:1070-1098 | chunks of 32, remaining pairs and an odd last instruction give the register file of sequential execution, for programs of any length |
| ScExecutor.ExecuteReference | randomx-core/src/superscalar.rs:1010-1044 | the reference loop computes that sequential execution |
| Argon2Block.RowIndexInverse | argon2/src/core.rs:274-321 | each of the 128 words lies in exactly one row, at exactly one place |
| Argon2Block.ColumnStep | argon2/src/core.rs:190-266 | one column turn accumulates R in the destination, writes the permuted column and reads the destination only with xor |
| Argon2Block.RowStep | argon2/src/core.rs:274-321 | one row turn reads only written scratch words and folds the permuted row into the destination |
| Argon2Block.FillBlockRaw | argon2/src/core.rs:172-322 | for all blocks and any permutation the fused function yields R xor the rows-after-columns permutation of R, xor the old block when asked, and defines every destination word otherwise |
| Argon2Fill.WindowPlace | argon2/src/core.rs:104-131 | the window of section 3.4.2 of RFC 9106 is a cyclic run that avoids the current and the previous block, starts behind the current slice, never wraps in the first pass and in the last slice, and in the first pass lies in the initialised prefix |
| Argon2Fill.SelectedDistance | argon2/src/core.rs:110-113 | with x the square of the word's low half in units of 2^32, the distance of the selected block from the newest one of the window is the window size times x in those units |
| Argon2Fill.SelectedOrder | argon2/src/core.rs:110-113 | larger low halves never select newer blocks, and the low half 0 selects the newest |
| Argon2Fill.ReferenceOffset | argon2/src/core.rs:104-131 | the masked offset arithmetic gives exactly the window's element at the selected position |
| Argon2Fill.SeedLayout | argon2/src/core.rs:38-43 | the 72-byte seed is the digest, then the block number and the lane number 0 in four bytes each, lowest first |
| Argon2Fill.Reads | argon2/src/core.rs:99-146 | each step reads two initialised slots, and the slot it writes is uninitialised exactly in the first pass |
| Argon2Fill.FillSegment | argon2/src/core.rs:82-147 | a segment extends the initialised prefix by exactly its own blocks, or rewrites exactly them |
| Argon2Fill.Initialize | argon2/src/core.rs:32-67 | all 262144 blocks end up initialised and equal to the three-pass specification from the two seed blocks |
| Monero.TreeLayout | audit/src/monero.rs:133-168 | the specified tree has every hash as a leaf exactly once and in order, leaf depths differ by at most one, and they never decrease from left to right |
| Monero.OnlyTree | audit/src/monero.rs:133-168 | no other tree has this layout: in order, balanced and deeper leaves to the right determine the tree |
| Monero.FoldKeeps | audit/src/monero.rs:161-166 | folding a level pairwise does not change the value of the tree above it |
| Monero.FoldLevel | audit/src/monero.rs:161-166 | folding in place gives the pairwise hashes of the level as it was, so no overwritten slot is read |
| Monero.TreeHash | audit/src/monero.rs:133-168 | the in-place algorithm returns the value of the recursive tree for every non-empty list and panics exactly on the empty one |
| Monero.MeetsDifficulty | audit/src/monero.rs:107-115 | true if and only if the little-endian 256-bit hash times the difficulty is below 2^256 |
| Monero.ProductFits | audit/src/monero.rs:111-112 | no limb product with its carry exceeds 128 bits, and the next carry fits 64 |

## Left out

- Blake2b, Keccak, AES and the content of the Argon2 permutation: parameters or not part of this model.
- `memory.rs` and dataset items: the dataset is an arbitrary function of the item index.
- The hash chain around a run (scratchpad fill, register hashing, eight programs per hash) is not part of this model.
- Bounds on the F registers: supported in the repository by an interval computation only.
- Hardware floating-point paths and rounding-control registers: foreign machine state.
- NaN operands of `softfp`: finite operands are covered in full, infinities as far as the machine meets them.
- ReferenceRuns.ReferenceRun: the reference interpreter is modelled on values, its loops as recursions with a panic for an index out of bounds, not in place; initialisation from the entropy words is the same text in both sources and is modelled once, so its agreement is by construction.
- ScGenerator.Generate: needs the hypothesis that the byte stream never starves a rejection loop; asic latencies, the address register and the profiling metrics are not modelled.
- ScExecutor.ReferenceStep: takes the reciprocal from the divisor; the predecoded form needs the build in which generation stores it.
- ScExecutor.ExecuteUnchecked: the checked loop over the predecoded program is the same dispatch without pairs and has no member of its own.
- Argon2Fill.FillBlock: a block of the lane is copied to a word array and back instead of being written through a pointer; Argon2Block.FillBlockRaw writes in place.
- Raw pointer layout, transmutation and native endianness of storage.
- That no wrapping operation of `randomx_reciprocal` differs from exact arithmetic is false for powers of two and for divisors above 2^63; Reciprocals.WrappingIsExact gives the exact condition, and beyond 2^63 the result is right all the same (Reciprocals.LargestQuotient).
- Executors, provers, audit binaries, fixtures, formatting and feature plumbing.
