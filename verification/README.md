# Polar codes: the integer core, in Dafny

A model of the integer core of a polar-code library. The library encodes
messages with the polar transform. It compiles a frozen-bit mask into a byte
program. A list decoder runs that program over vectors of `int8` soft values,
one SIMD lane per candidate path. The model covers these parts:

- the `int8` arithmetic helper `PolarHelper<int8_t>` (module `Quant`);
- the butterfly transform and its in-place stage loops (module `Butterfly`);
- the two encoders `PolarEncoder` and `PolarSysEnc` (module `Encoder`);
- the test bench's `PolarTransform` and the counting loop of `PolarHistogram`
  (module `Testbench`);
- the packed-mask program compiler `PolarCompiler` (module `Compiler`);
- the code emitter `PolarEmitter`, with printed lines kept as tokens (module `Emitter`);
- lane vectors, `vshuf` and the `nth_element` selection (module `Lanes`);
- the decoder kernels `left`, `right`, `comb`, `rate0`, `rate1` and `rep`
  (module `Kernels`);
- the decoder's start-up and opcode dispatch loop (module `Decoder`).

Integers are unbounded. Where the source stores an `int` into an `int8_t`,
the model wraps explicitly (`Common.Wrap8`). Where it clamps, the model
clamps (`Common.Saturate`). Buffer overruns and failing `assert`s, which
are undefined behaviour or aborts in the source, are explicit error
results (`Result.Fail`) or an `aborted` flag.

The transform has one reference definition, `Butterfly.Polar`. It is the
recursive `Combine(Polar(left half), Polar(right half))`, where
`Combine(a, b) = [a[i] * b[i]] ++ b`. Every in-place loop (encoder, test
bench, `rate1`) is proved to compute it. Its algebraic facts are proved once
for `qmul` on hard values (`±1`): it is an involution, it is multiplicative
and it keeps the all-ones vector. Lane vectors reuse the same generic
definition with a lane-wise product.

## Model

| member | source | states |
|---|---|---|
| Common.Wrap8 | polar_helper.hh:215 | returning an `int` product as `int8_t` keeps in-range values and is congruent to the value modulo 256 |
| Quant.Signum | polar_helper.hh:186-189 | the result is 1, -1 or 0 exactly when the input is positive, negative or zero |
| Quant.Decide | polar_helper.hh:190-193 | the decision is hard, is +1 exactly for non-negative input, and times the input gives its magnitude |
| Quant.Qabs | polar_helper.hh:199-202 | magnitude in 0..127; -128 saturates to 127 instead of overflowing |
| Quant.Qmin | polar_helper.hh:203-206 | the result is one of the inputs and no larger than either |
| Quant.Qadd | polar_helper.hh:207-210 | the exact sum when it fits in int8, otherwise 127 or -128 |
| Quant.Qmul | polar_helper.hh:211-216 | the exact product when it fits; hard times hard is hard |
| Quant.Prod | polar_helper.hh:217-220 | zero iff an input is zero; sign is the product of signs; magnitude is the smaller saturated magnitude |
| Quant.Madd | polar_helper.hh:221-224 | `a*b + c` when it fits in int8, otherwise saturated to 127 or -128 |
| Quant.Flip | polar_helper.hh:225-228 | unequal `c, d` leave `a`; equal ones give the product on hard values |
| Quant.QaddCommutes | polar_helper.hh:207-210 | saturating addition is commutative |
| Quant.ProdCommutes | polar_helper.hh:217-220 | the min-sum product is commutative |
| Quant.QmulHardGroup | polar_helper.hh:211-216 | on hard values `qmul` is commutative and associative, 1 is neutral, and each value is its own inverse |
| Quant.FlipInvolution | polar_helper.hh:225-228 | flipping twice with the same `b, c, d` restores a hard `a` |
| Quant.ProdAgreesWithGeneric | polar_helper.hh:49-52 | the int8 `prod` is the generic `prod` after -128 is read as -127, and equals it when no input is -128 |
| Quant.MaddHard | polar_helper.hh:221-224 | with a hard multiplier, `madd` is a saturating add or subtract of `b` |
| Butterfly.ApplyButterfly | polar_encoder.hh:24-25 | the inner loop combines one `2h` block and leaves everything else unchanged |
| Butterfly.ApplyStage | polar_encoder.hh:23-25 | one pass of the middle loop combines every `2h` block of the vector |
| Butterfly.StageOfBlocks | polar_encoder.hh:22-25 | a stage at `h = 2^s` turns transformed `2^s` blocks into transformed `2^(s+1)` blocks |
| Butterfly.PairStage | polar_encoder.hh:16-21 | the pair loop is the stage with `h = 1` |
| Butterfly.Stages | polar_encoder.hh:22-25 | after the pair loop, the doubling loop yields the recursive transform of the whole input |
| Butterfly.PolarHard | testbench.cc:28-40 | the transform of a hard vector is hard |
| Butterfly.PolarMul | polar_encoder.hh:22-25 | on hard vectors the transform of an element-wise product is the product of the transforms |
| Butterfly.PolarInvolution | testbench.cc:211-217 | on hard vectors the transform is its own inverse |
| Butterfly.PolarOnes | polar_encoder.hh:16-25 | the all-ones vector (everything frozen) is fixed by the transform |
| Encoder.FreeCountStep | polar_encoder.hh:17-18 | each position consumes one message value exactly when it is free |
| Encoder.FillAt | polar_encoder.hh:16-18 | position `i` holds 1 if frozen, otherwise the message value after the free positions before `i` |
| Encoder.ExtractFill | testbench.cc:177-179 | reading the free positions of a filled vector returns the consumed message prefix |
| Encoder.FillExtract | polar_encoder.hh:46-48 | filling with what was read from the free positions is the same as setting the frozen positions to 1 |
| Encoder.ExtractRefreeze | polar_encoder.hh:46-48 | setting frozen positions to 1 does not change the free positions |
| Encoder.RefreezeIdempotent | polar_encoder.hh:46-48 | setting the frozen positions to 1 twice is the same as once |
| Encoder.RefreezeFill | polar_encoder.hh:46-48 | a filled vector already has 1 at every frozen position |
| Encoder.FillHard | polar_encoder.hh:16-21 | a hard message gives a hard encoder input |
| Encoder.FillAllFrozen | polar_encoder.hh:16-18 | with every position frozen the input is all ones, whatever the message |
| Encoder.FillNoneFrozen | polar_encoder.hh:16-18 | with no frozen position the input is the message itself |
| Encoder.FreezeRoundTrip | polar_encoder.hh:42-55 | for an upward-closed mask, transforming, refreezing with a larger free set and transforming back keeps the free positions |
| Encoder.ReadEntry | polar_encoder.hh:17-18 | one read of `frozen[i] ? 1 : *message++` returns the filled value and advances the message pointer iff the position is free |
| Encoder.PolarEncode | polar_encoder.hh:14-26 | the codeword is the transform of the filled input, and the message pointer advances by the number of free positions |
| Encoder.SysEncode | polar_encoder.hh:34-56 | the codeword is transform, refreeze, transform of the filled input; for an upward-closed mask and hard message its free positions carry the message |
| Encoder.SystematicMessage | testbench.cc:177-179 | the systematic codeword's free positions are the message, in order |
| Encoder.EncodersProduceCodewords | polar_encoder.hh:14-56 | inverting the transform of either encoder's output gives a vector with 1 at every frozen position |
| Encoder.ReencodeTransformed | polar_encoder.hh:46-55 | the transform of the systematic codeword is the refrozen transform of the input |
| Encoder.SystematicRecovery | testbench.cc:211-217 | re-encoding the decoder's message estimate of a systematic codeword gives back the message at the free positions |
| Encoder.AllFrozenEncodesOnes | polar_encoder.hh:14-56 | with every position frozen both encoders output all ones |
| Encoder.NoneFrozenIsTransform | polar_encoder.hh:14-26 | with no frozen position the encoder is the plain transform of the message |
| Testbench.Transform | testbench.cc:28-40 | the output is the recursive transform of the input, and is hard when the input is |
| Testbench.TransformTwice | testbench.cc:28-40 | applying the test bench transform twice to a hard vector returns it |
| Testbench.SentinelFrom | testbench.cc:52-53 | the first 255 at or after a position, or the end; no 255 is skipped |
| Testbench.Histogram | testbench.cc:47-53 | succeeds iff the program has a header and a 255 after it; bucket `b` counts the `b` bytes of the body; the buckets sum to the body length |
| Testbench.CompiledProgramSentinel | testbench.cc:137-144 | on a compiled program the count stops exactly at the closing 255 and counts the compiled body |
| Compiler.Node | polar_compiler.hh:16-19 | an opcode is a byte in 32..254, never the sentinel |
| Compiler.NodeDecodes | polar_compiler.hh:16-43 | the opcode's top three bits give back the function and the low five the level |
| Compiler.ClearLowest | polar_compiler.hh:50 | `x &= x - 1` removes exactly one set bit |
| Compiler.Popcnt | polar_compiler.hh:44-53 | the loop counts the set bits; zero iff the byte is zero |
| Compiler.FrozenCount | polar_compiler.hh:54-60 | the sum of the set bits over the `2^(level-U)` bytes of the block |
| Compiler.PackedCountFrozen | polar_compiler.hh:54-60 | in a well-formed packed mask the set bits count the frozen positions |
| Compiler.ClassifyByMask | polar_compiler.hh:63-80 | a block is a leaf exactly when `level <= U`; above `U`, on a well-formed mask, it is all-frozen iff no unpacked position is free, none-frozen iff every position is free, and last-free iff the only free position is the last |
| Compiler.CompileProgram | polar_compiler.hh:83-90 | the program is the level byte, the compiled body and 255; the returned length is its size; a well-formed mask puts no 255 in the body |
| Compiler.CompileLeaf | polar_compiler.hh:78-80 | a block of at most four positions is its mask byte, at most 15 when well-formed |
| Compiler.CompileRate0 | polar_compiler.hh:65-66 | the body is the single `rate0` opcode iff every position of the block is frozen |
| Compiler.CompileRate1 | polar_compiler.hh:67-68 | the body is the single `rate1` opcode iff no position of the block is frozen |
| Compiler.SevenIsLastFree | polar_compiler.hh:69 | the mask byte 7 is exactly "first three frozen, last free" |
| Compiler.CompileRep | polar_compiler.hh:69-70 | the body is the single `rep` opcode iff exactly one position is free and it is the last |
| Compiler.CompileSplit | polar_compiler.hh:71-77 | otherwise the body is `left`, the left half, `right`, the right half (mask advanced by half the bytes), `combine` |
| Compiler.CompileNoSentinel | polar_compiler.hh:61-81 | a well-formed mask never yields a 255 in the body |
| Compiler.CompileLength | polar_compiler.hh:61-81 | a leaf compiles to one byte; a block of `2^level` positions to at most `2^level - 3` bytes |
| Compiler.ProgramFitsBuffer | testbench.cc:137-139 | the program fits the `10 * N` buffer the test bench allocates |
| Compiler.CompileBalanced | polar_compiler.hh:71-77 | at every level the body has as many `left` as `right` and as `combine` opcodes |
| Emitter.EmitByMask | polar_emitter.cc:25-39 | on a 0/1 mask: no free position prints `rate0`; all free prints `rate1` and moves `msg` by `2^level`; only the last free prints `rep` and moves `msg` by 1; only the first frozen, from level 2, prints `spc` and moves `msg` by `2^level - 1`; any other block starts with `left`; level 0 aborts with nothing printed |
| Emitter.ByteSumBinary | polar_emitter.cc:16-22 | for a 0/1 mask the byte sum counts the frozen positions |
| Emitter.ClassifyBinary | polar_emitter.cc:26-35 | for a 0/1 mask: rate0 iff none free, rate1 iff all free, rep iff only the last free, spc iff only the first frozen |
| Emitter.EmitTotals | polar_emitter.cc:23-47 | a complete emission moves `hrd` back to where it started and advances `msg` by the number of free positions |
| Emitter.EmitAborts | polar_emitter.cc:23-47 | for a 0/1 mask the emission aborts iff the level is 0 or some aligned pair of positions is free-then-frozen |
| Emitter.PairSplit | polar_emitter.cc:25-46 | a two-position block that splits is free-then-frozen, so it reaches `compile(..., 0)` |
| Lanes.PolarColumn | polar_decoder.hh:60-67 | the lane-wise transform of vectors is, lane by lane, the scalar transform |
| Lanes.SelectSmallest | polar_decoder.hh:117-120 | the result is a permutation of `0 .. 2w-1` whose first `w` entries index forks no larger than the rest |
| Kernels.Left | polar_decoder.hh:16-23 | `soft[n/2 .. n)` gets the min-sum product of the two halves of `soft[n .. 2n)`; nothing else changes |
| Kernels.Right | polar_decoder.hh:24-31 | `soft[n/2 .. n)` gets `madd(hard[index+i], ...)` of the two halves of `soft[n .. 2n)`; nothing else changes |
| Kernels.Comb | polar_decoder.hh:32-39 | the hard block at `index` becomes the butterfly of its halves; the right half and the rest are unchanged |
| Kernels.Rate0 | polar_decoder.hh:40-51 | the hard block is all ones; each lane's metric grows by the sum of its negative soft values |
| Kernels.Rate1 | polar_decoder.hh:52-70 | the hard block is the signs of the soft values; `soft[0 .. n)` and the message block get its transform |
| Kernels.Rate1Reencodes | polar_decoder.hh:52-70 | transforming again what `rate1` writes to the message gives back the hard decisions of each lane |
| Kernels.Transform | polar_decoder.hh:60-67 | the pair and stage loops on vectors compute the lane-wise recursive transform |
| Kernels.ForkMetrics | polar_decoder.hh:108-116 | the forked metrics are each path's metric plus the penalty of deciding +1 (first `w`) and -1 (last `w`) |
| Kernels.Penalize | polar_decoder.hh:111-116 | each lane adds a negative soft value's size to its +1 fork and a non-negative one to its -1 fork |
| Kernels.Fork | polar_decoder.hh:104-138 | the kept metrics are the `w` smallest forks; soft, hard and message are shuffled by their origin lanes; the hard block and the next message vector get the decisions |
| Kernels.ForkChoice | polar_decoder.hh:117-125 | a kept metric is its origin lane's metric plus that lane's penalty for the chosen decision, so metrics never decrease |
| Kernels.SingleLaneDecides | polar_decoder.hh:104-138 | with one lane, `rep` decides the sign of the summed soft values |
| Decoder.Step | polar_decoder.hh:156-341 | one opcode succeeds iff it is listed, in range and within the buffers; function code 0, 1, 2 runs `left`, `right`, `comb` at opcode level + 1 and 3, 4, 5 runs `rate0`, `rate1`, `rep` at the opcode level, with the effect each kernel promises at the current `idx` and `cnt`; it moves `idx` and `cnt` as the switch does; the best metric never decreases |
| Decoder.StepLeft | polar_decoder.hh:157-186 | `left`: the child soft block is the `prod` of the parent halves; hard, metrics, message and offsets unchanged |
| Decoder.StepRight | polar_decoder.hh:187-216 | `right` at `idx`: the child soft block is `madd` of the left decisions and the parent halves; `idx` moves by the half size |
| Decoder.StepComb | polar_decoder.hh:217-246 | `idx` moves back by the half size and `comb` there merges the decided halves; soft, metrics and message unchanged |
| Decoder.StepRate0 | polar_decoder.hh:247-277 | `rate0` at `idx`: the block is all +1 and each lane pays its negative soft values; soft, message and offsets unchanged; the best metric does not decrease |
| Decoder.StepRate1 | polar_decoder.hh:279-308 | `rate1` at `idx` and `cnt` for level > 0: the block is the signs, its transform is in `soft` and the message; metrics unchanged; `cnt` moves by the block size |
| Decoder.StepFork | polar_decoder.hh:309-339 | `rep` and `rate1<0>`: for some selection, the metrics are the `w` smallest forks, the buffers are re-laned by origin and the decisions fill the block and `msg[cnt]`; `cnt` moves by one; the best metric does not decrease |
| Decoder.ForkLowest | polar_decoder.hh:120-122 | the best metric after a fork is no smaller than before |
| Decoder.Start | polar_decoder.hh:144-153 | the codeword is broadcast into `soft[n .. 2n)`; path 0 starts at 0, the others at 1000; offsets start at 0 |
| Decoder.StartLowest | polar_decoder.hh:150-153 | the best starting metric is 0 |
| Decoder.Run | polar_decoder.hh:142-344 | the run fails on an empty program, a large level or a short codeword; on success it met a 255, the offsets are those of the body and every metric is non-negative |
| Decoder.IdxBalanced | polar_decoder.hh:187-246 | a well-nested program returns `idx` to where it started |

## Left out

- The frozen-set construction (`polar_freezer.hh`): it works in `long double` and is not part of this model; masks are inputs.
- `PolarHelper<int8_t>::quant` and the generic `quant`: they round floating point with `nearbyint`.
- The SIMD specialisations of `PolarHelper` and the `simd.hh` wrappers are not part of this model; vectors are modelled lane by lane (`Lanes`) with the scalar `PolarHelper<int8_t>` operations.
- Kernels.Right: each lane uses the scalar `madd` of `PolarHelper<int8_t>`. The SIMD `madd` of `PolarHelper<SIMD<int8_t, W>>` (polar_helper.hh:161-168) first raises `b = -128` to -127, so for a = -1, b = -128, c = -1 it gives 126 where the model gives 127.
- The test bench's `main` (noise, timing, error counting, output) and the printing part of `PolarHistogram` (the top-opcode table and lengths): I/O and floating point.
- The emitter's `main` and its text formatting: each printed line is one `Emitter.Instr` token.
- The per-level template instantiations (`left<level>` …): the level is a runtime argument; the decoder accepts the same opcode ranges (levels up to 29 for `left`/`right`/`comb`, up to 30 for the rest).
- Running a compiled program through the decoder end to end: the compiler numbers its functions 1..6 and leaves raw mask bytes as leaves, while the decoder's switch expects functions 0..5 and has no leaf case, so the two files do not fit together as written.
- Compiler.Compile and Emitter.Emit: the functions' own contracts are weak; their behaviour is stated by the `Compile…` and `Emit…` lemmas in the table.
- Compiler.Classify, Compiler.ClassifyByMask, Compiler.CompileProgram: the recursion is modelled for `level <= 30` only, because `1 << level` is a 32-bit `int` in the source.
- Emitter.Emit, Emitter.ClassifyBinary, Emitter.EmitByMask, Emitter.EmitTotals, Emitter.EmitAborts: modelled for `level <= 30` only, for the same reason: `1<<level` is a 32-bit `int` (polar_emitter.cc:19, 27).
- Encoder.PolarEncode, Encoder.SysEncode: require `m >= 1`; with `M = 0` the pair loop would read `frozen[1]` of a one-entry mask (polar_encoder.hh:17-18), so a code of length 1 is not modelled.
- Kernels.Fork: `std::nth_element` is modelled by its contract only (a permutation with the `w` smallest forks first); the order within each half and which of two equal forks is kept are unspecified, and `Lanes.SelectSmallest` is one admissible choice.
- Kernels.Fork: only `soft[0 .. 2^MAX_M)` is shuffled, as in the source; the upper half is left alone.
- Decoder.Run: path metrics (`PATH`) and the offsets `idx`, `cnt` are unbounded integers; the source's integer types could overflow on very long programs.
- Decoder.Start: the decoder's `soft` and `hard` buffers are uninitialised in the source; their initial contents are parameters.
- Decoder.Step: reads outside the buffers and past the codeword are undefined behaviour in the source; here they are `OutOfRange` or `ShortCodeword` faults. A kernel opcode whose level exceeds `MAX_M` fails the `assert(level <= MAX_M)` at the head of each kernel template (polar_decoder.hh:19, 27, 35, 43, 56, 106) and aborts; here that abort is the `LevelTooLarge` fault.
- Testbench.Histogram: the source reads past the end of a program without a 255; here that is a `NoSentinel` fault.
