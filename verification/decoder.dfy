/**
  `PolarDecoder::operator()`: the decoder's state, the start-up that loads
  the codeword, and the loop that runs a program one opcode at a time.
  Opcode `(func << 5) + l` runs `left`, `right` or `comb` at level `l + 1`
  (func 0, 1, 2; l up to 29) and `rate0`, `rate1` or `rep` at level `l`
  (func 3, 4, 5; l up to 30); any other byte before the 255 that ends the
  program reaches `assert(false)`. A failing assertion, a level beyond
  `MAX_M` and an access outside a buffer all stop the run with a fault.
*/
module Decoder {
  import opened Common
  import opened Quant
  import opened Butterfly
  import opened Lanes
  import opened Kernels
  import Testbench

  /** Why a run stopped without a result. */
  datatype Fault =
    | EmptyProgram              // no level byte to read
    | LevelTooLarge             // a level above `MAX_M`
    | ShortCodeword             // fewer than `2^level` codeword values
    | OutOfRange                // `idx` or `cnt` takes a kernel outside `hard` or the message
    | UnknownOpcode(op: Byte)   // the `default:` case
    | NoSentinel                // the program ends without a 255

  /**
    The decoder's buffers (`soft`, `hard`), the caller's metric and message
    buffers (`met`, `mesg`), and the two running offsets.
  */
  datatype Machine = Machine(soft: seq<Vec>, hard: seq<Vec>, met: seq<int>, mesg: seq<Vec>, idx: int, cnt: int)

  /** Buffer sizes for `MAX_M = maxM`, with `|met|` lanes everywhere. */
  predicate Valid(s: Machine, maxM: nat)
  {
    |s.met| >= 1 && |s.soft| == 2 * Pow2(maxM) && |s.hard| == Pow2(maxM) &&
    Width(s.soft, |s.met|) && Width(s.hard, |s.met|) && Width(s.mesg, |s.met|)
  }

  /** The smallest metric: the best candidate's. */
  function Lowest(m: seq<int>): (r: int)
    requires |m| >= 1
    ensures forall k :: 0 <= k < |m| ==> r <= m[k]
    ensures exists k :: 0 <= k < |m| && m[k] == r
  {
    if |m| == 1 then m[0]
    else
      var rest := Lowest(m[1..]);
      assert forall k :: 1 <= k < |m| ==> m[k] == m[1..][k - 1];
      if m[0] <= rest then m[0] else rest
  }

  // Opcodes.

  /** The cases the `switch` lists. */
  predicate Listed(op: Byte)
  {
    (op / 32 <= 2 && op % 32 <= 29) || (3 <= op / 32 <= 5 && op % 32 <= 30)
  }

  /** The level of the kernel an opcode runs. */
  function KernelLevel(op: Byte): nat
  {
    if op / 32 <= 2 then op % 32 + 1 else op % 32
  }

  /**
    Whether the source defines what opcode `op` does in state `s`: a listed
    case, a kernel level within `MAX_M`, and every access in range.
  */
  predicate Defined(s: Machine, maxM: nat, op: Byte)
  {
    var f, l := op / 32, op % 32;
    Listed(op) && KernelLevel(op) <= maxM &&
    (f == 1 ==> 0 <= s.idx && s.idx + Pow2(l) <= Pow2(maxM)) &&
    (f == 2 ==> 0 <= s.idx - Pow2(l) && s.idx + Pow2(l) <= Pow2(maxM)) &&
    (3 <= f ==> 0 <= s.idx && s.idx + Pow2(l) <= Pow2(maxM)) &&
    (f == 4 ==> 0 <= s.cnt && s.cnt + Pow2(l) <= |s.mesg|) &&
    (f == 5 ==> 0 <= s.cnt < |s.mesg|)
  }

  /** The bookkeeping of `idx` in the `switch`. */
  function IdxStep(op: Byte, idx: int): int
  {
    if op / 32 == 1 then idx + Pow2(op % 32)
    else if op / 32 == 2 then idx - Pow2(op % 32)
    else idx
  }

  /** The bookkeeping of `cnt` in the `switch`. */
  function CntStep(op: Byte, cnt: int): int
  {
    if op / 32 == 4 then cnt + Pow2(op % 32)
    else if op / 32 == 5 then cnt + 1
    else cnt
  }

  // What each kernel does to the machine, as the kernel contracts state it.

  /**
    `left<level>()`: `soft[n/2 .. n)` becomes the min-sum products of the two
    halves of `soft[n .. 2n)`; nothing else changes.
  */
  predicate LeftEffect(s: Machine, t: Machine, level: nat)
  {
    level >= 1 && 2 * Pow2(level) <= |s.soft| == |t.soft| && Width(s.soft, |s.met|) &&
    t.hard == s.hard && t.met == s.met && t.mesg == s.mesg &&
    (forall j :: Pow2(level - 1) <= j < Pow2(level) ==>
       t.soft[j] == VProd(s.soft[j + Pow2(level - 1)], s.soft[j + Pow2(level)])) &&
    (forall j :: 0 <= j < |s.soft| && !(Pow2(level - 1) <= j < Pow2(level)) ==> t.soft[j] == s.soft[j])
  }

  /**
    `right<level>(idx)`: `soft[n/2 .. n)` becomes `madd` of the left half's
    decisions at `idx` with the two halves of `soft[n .. 2n)`.
  */
  predicate RightEffect(s: Machine, t: Machine, level: nat)
  {
    level >= 1 && 2 * Pow2(level) <= |s.soft| == |t.soft| &&
    Width(s.soft, |s.met|) && Width(s.hard, |s.met|) &&
    0 <= s.idx && s.idx + Pow2(level - 1) <= |s.hard| &&
    t.hard == s.hard && t.met == s.met && t.mesg == s.mesg &&
    (forall j :: Pow2(level - 1) <= j < Pow2(level) ==>
       t.soft[j] == VMadd(s.hard[s.idx + j - Pow2(level - 1)], s.soft[j + Pow2(level - 1)], s.soft[j + Pow2(level)])) &&
    (forall j :: 0 <= j < |s.soft| && !(Pow2(level - 1) <= j < Pow2(level)) ==> t.soft[j] == s.soft[j])
  }

  /** `comb<level>(index)` on the machine: only `hard` changes. */
  predicate CombEffect(s: Machine, t: Machine, level: nat, index: int)
  {
    Width(s.hard, |s.met|) && t.soft == s.soft && t.met == s.met && t.mesg == s.mesg &&
    level >= 1 && CombOut(s.hard, Pow2(level - 1), index, t.hard)
  }

  /**
    `rate0<level>(met, idx)`: the hard block at `idx` is all +1 and each
    lane's metric grows by the sizes of its negative soft values.
  */
  predicate Rate0Effect(s: Machine, t: Machine, level: nat)
  {
    2 * Pow2(level) <= |s.soft| && Width(s.soft, |s.met|) &&
    0 <= s.idx && s.idx + Pow2(level) <= |s.hard| == |t.hard| && |t.met| == |s.met| &&
    t.soft == s.soft && t.mesg == s.mesg &&
    (forall j :: s.idx <= j < s.idx + Pow2(level) ==> t.hard[j] == Dup(1, |s.met|)) &&
    (forall j :: 0 <= j < |s.hard| && !(s.idx <= j < s.idx + Pow2(level)) ==> t.hard[j] == s.hard[j]) &&
    (forall k :: 0 <= k < |s.met| ==> t.met[k] == s.met[k] + NegSum(s.soft, Pow2(level), 2 * Pow2(level), k))
  }

  /** `rate1<level>` for `level > 0` on the machine at `cnt` and `idx`; the metrics stay. */
  predicate Rate1Effect(s: Machine, t: Machine, level: nat)
  {
    Width(s.soft, |s.met|) && t.met == s.met &&
    Rate1Out(s.soft, s.hard, s.mesg, level, s.cnt, s.idx, t.soft, t.hard, t.mesg)
  }

  /**
    `rep<level>` and `rate1<0>` with the selection `perm`: the metrics are
    the `w` smallest forks, every candidate's buffers come from its origin
    lane, and the decisions fill the hard block and the message at `cnt`.
  */
  predicate ForkEffect(s: Machine, t: Machine, level: nat, perm: seq<nat>)
  {
    var w, n := |s.met|, Pow2(level);
    w >= 1 && 2 * n <= |s.soft| == 2 * |s.hard| &&
    Width(s.soft, w) && Width(s.hard, w) && Width(s.mesg, w) &&
    0 <= s.idx && s.idx + n <= |s.hard| && 0 <= s.cnt < |s.mesg| &&
    Selects(perm, Forks(s.met, s.soft, n), w) &&
    |t.met| == w && (forall k :: 0 <= k < w ==> t.met[k] == Forks(s.met, s.soft, n)[perm[k]]) &&
    |t.soft| == |s.soft| && |t.hard| == |s.hard| && |t.mesg| == |s.mesg| &&
    t.soft[..|s.hard|] == ShuffleAll(s.soft[..|s.hard|], Origins(perm, w)) &&
    t.soft[|s.hard|..] == s.soft[|s.hard|..] &&
    (forall j :: 0 <= j < |s.hard| && !(s.idx <= j < s.idx + n) ==> t.hard[j] == Shuffle(s.hard[j], Origins(perm, w))) &&
    (forall j :: s.idx <= j < s.idx + n ==> t.hard[j] == Decisions(perm, w)) &&
    t.mesg[..s.cnt] == ShuffleAll(s.mesg[..s.cnt], Origins(perm, w)) &&
    t.mesg[s.cnt] == Decisions(perm, w) && t.mesg[s.cnt + 1..] == s.mesg[s.cnt + 1..]
  }

  // One opcode.

  /**
    One pass of the `switch`. It succeeds exactly when the opcode is
    defined; opcode level `l` runs `left`, `right` or `comb` at level
    `l + 1` and `rate0`, `rate1` or `rep` at level `l`, at the current
    offsets; it moves `idx` and `cnt` as the `switch` does; and the best
    metric never decreases.
  */
  method Step(s: Machine, maxM: nat, op: Byte) returns (r: Result<Machine, Fault>)
    requires maxM <= 30 && Valid(s, maxM)
    ensures r.Ok? <==> Defined(s, maxM, op)
    ensures r.Fail? && !Listed(op) ==> r.error == UnknownOpcode(op)
    ensures r.Fail? && Listed(op) && KernelLevel(op) > maxM ==> r.error == LevelTooLarge
    ensures r.Ok? ==> Valid(r.value, maxM) && |r.value.met| == |s.met| && |r.value.mesg| == |s.mesg|
    ensures r.Ok? ==> r.value.idx == IdxStep(op, s.idx) && r.value.cnt == CntStep(op, s.cnt)
    ensures r.Ok? ==> Lowest(r.value.met) >= Lowest(s.met)
    ensures r.Ok? && op / 32 <= 2 ==> r.value.met == s.met && r.value.mesg == s.mesg
    ensures r.Ok? && op / 32 == 3 ==> r.value.soft == s.soft && r.value.mesg == s.mesg
    ensures r.Ok? && op / 32 == 4 && op % 32 > 0 ==> r.value.met == s.met
    ensures r.Ok? && op / 32 == 0 ==> LeftEffect(s, r.value, op % 32 + 1)
    ensures r.Ok? && op / 32 == 1 ==> RightEffect(s, r.value, op % 32 + 1)
    ensures r.Ok? && op / 32 == 2 ==> CombEffect(s, r.value, op % 32 + 1, r.value.idx)
    ensures r.Ok? && op / 32 == 3 ==> Rate0Effect(s, r.value, op % 32)
    ensures r.Ok? && op / 32 == 4 && op % 32 > 0 ==> Rate1Effect(s, r.value, op % 32)
    ensures r.Ok? && (op / 32 == 5 || op == 4 * 32) ==> exists perm :: ForkEffect(s, r.value, op % 32, perm)
  {
    if !Listed(op) {
      return Fail(UnknownOpcode(op));
    }
    if KernelLevel(op) > maxM {
      return Fail(LevelTooLarge);
    }
    if !Defined(s, maxM, op) {
      return Fail(OutOfRange);
    }
    var f, l := op / 32, op % 32;
    var next: Machine;
    if f == 0 {
      next := StepLeft(s, maxM, l + 1);
    } else if f == 1 {
      next := StepRight(s, maxM, l + 1);
    } else if f == 2 {
      next := StepComb(s, maxM, l + 1);
    } else if f == 3 {
      next := StepRate0(s, maxM, l);
    } else if f == 4 && l > 0 {
      next := StepRate1(s, maxM, l);
    } else {
      next := StepFork(s, maxM, l);
    }
    r := Ok(next);
  }

  /** `left<level>()`. */
  method StepLeft(s: Machine, maxM: nat, level: nat) returns (next: Machine)
    requires maxM <= 30 && Valid(s, maxM) && 1 <= level <= maxM
    ensures Valid(next, maxM) && next.idx == s.idx && next.cnt == s.cnt
    ensures LeftEffect(s, next, level)
  {
    Pow2Monotone(level, maxM);
    var soft := Left(s.soft, level, |s.met|);
    next := s.(soft := soft);
  }

  /** `right<level>(idx); idx += 1 << (level - 1)`. */
  method StepRight(s: Machine, maxM: nat, level: nat) returns (next: Machine)
    requires maxM <= 30 && Valid(s, maxM) && 1 <= level <= maxM
    requires 0 <= s.idx && s.idx + Pow2(level - 1) <= Pow2(maxM)
    ensures Valid(next, maxM) && next.idx == s.idx + Pow2(level - 1) && next.cnt == s.cnt
    ensures RightEffect(s, next, level)
  {
    Pow2Monotone(level, maxM);
    var soft := Right(s.soft, s.hard, level, s.idx, |s.met|);
    next := s.(soft := soft, idx := s.idx + Pow2(level - 1));
  }

  /** `idx -= 1 << (level - 1); comb<level>(idx)`. */
  method StepComb(s: Machine, maxM: nat, level: nat) returns (next: Machine)
    requires maxM <= 30 && Valid(s, maxM) && 1 <= level <= maxM
    requires 0 <= s.idx - Pow2(level - 1) && s.idx + Pow2(level - 1) <= Pow2(maxM)
    ensures Valid(next, maxM) && next.idx == s.idx - Pow2(level - 1) && next.cnt == s.cnt
    ensures CombEffect(s, next, level, next.idx)
  {
    var h := Pow2(level - 1);
    assert Pow2(level) == 2 * h;
    var index := s.idx - h;
    var hard := Comb(s.hard, level, index, |s.met|);
    next := Machine(s.soft, hard, s.met, s.mesg, index, s.cnt);
  }

  /** `rate0<level>(met, idx)`. */
  method StepRate0(s: Machine, maxM: nat, level: nat) returns (next: Machine)
    requires maxM <= 30 && Valid(s, maxM) && level <= maxM
    requires 0 <= s.idx && s.idx + Pow2(level) <= Pow2(maxM)
    ensures Valid(next, maxM) && |next.met| == |s.met|
    ensures next.soft == s.soft && next.mesg == s.mesg && next.idx == s.idx && next.cnt == s.cnt
    ensures Lowest(next.met) >= Lowest(s.met)
    ensures Rate0Effect(s, next, level)
  {
    Pow2Monotone(level, maxM);
    var hard, met := Rate0(s.soft, s.hard, s.met, level, s.idx);
    next := s.(hard := hard, met := met);
    LowestMonotone(s.met, met);
  }

  /** `rate1<level>(met, msg, cnt, idx); cnt += 1 << level` for `level > 0`. */
  method StepRate1(s: Machine, maxM: nat, level: nat) returns (next: Machine)
    requires maxM <= 30 && Valid(s, maxM) && 1 <= level <= maxM
    requires 0 <= s.idx && s.idx + Pow2(level) <= Pow2(maxM)
    requires 0 <= s.cnt && s.cnt + Pow2(level) <= |s.mesg|
    ensures Valid(next, maxM) && |next.mesg| == |s.mesg|
    ensures next.idx == s.idx && next.cnt == s.cnt + Pow2(level)
    ensures Rate1Effect(s, next, level)
  {
    var n := Pow2(level);
    Pow2Monotone(level, maxM);
    var soft, hard, mesg := Rate1(s.soft, s.hard, s.mesg, level, s.cnt, s.idx, |s.met|);
    next := Machine(soft, hard, s.met, mesg, s.idx, s.cnt + n);
  }

  /** `rep<level>` and `rate1<0>`, the list step; both advance `cnt` by one. */
  method StepFork(s: Machine, maxM: nat, level: nat) returns (next: Machine)
    requires maxM <= 30 && Valid(s, maxM) && level <= maxM
    requires 0 <= s.idx && s.idx + Pow2(level) <= Pow2(maxM) && 0 <= s.cnt < |s.mesg|
    ensures Valid(next, maxM) && |next.met| == |s.met| && |next.mesg| == |s.mesg|
    ensures next.idx == s.idx && next.cnt == s.cnt + 1
    ensures Lowest(next.met) >= Lowest(s.met)
    ensures exists perm :: ForkEffect(s, next, level, perm)
  {
    Pow2Monotone(level, maxM);
    var f := Fork(s.soft, s.hard, s.met, s.mesg, level, s.cnt, s.idx);
    next := Machine(f.soft, f.hard, f.met, f.mesg, s.idx, s.cnt + 1);
    ForkLowest(s.met, s.soft, Pow2(level), f.perm, f.met);
    assert ForkEffect(s, next, level, f.perm);
  }

  /** Raising every metric raises the best. */
  lemma LowestMonotone(a: seq<int>, b: seq<int>)
    requires |a| == |b| >= 1 && forall k :: 0 <= k < |a| ==> a[k] <= b[k]
    ensures Lowest(a) <= Lowest(b)
  {
    var k :| 0 <= k < |b| && b[k] == Lowest(b);
    assert Lowest(a) <= a[k];
  }

  /** Every survivor's metric is at least its origin's, so at least the old best. */
  lemma ForkLowest(met: seq<int>, soft: seq<Vec>, n: nat, perm: seq<nat>, met': seq<int>)
    requires |met| >= 1 && 2 * n <= |soft| && Width(soft, |met|)
    requires Selects(perm, Forks(met, soft, n), |met|)
    requires |met'| == |met| && forall k :: 0 <= k < |met| ==> met'[k] == Forks(met, soft, n)[perm[k]]
    ensures Lowest(met') >= Lowest(met)
  {
    var k :| 0 <= k < |met'| && met'[k] == Lowest(met');
    ForkChoice(met, soft, n, perm, k);
  }

  // The whole run.

  /** `idx` after running `ops` from `idx`. */
  function IdxAfter(ops: seq<Byte>, idx: int): int
  {
    if |ops| == 0 then idx else IdxStep(ops[|ops| - 1], IdxAfter(ops[..|ops| - 1], idx))
  }

  /** `cnt` after running `ops` from `cnt`. */
  function CntAfter(ops: seq<Byte>, cnt: int): int
  {
    if |ops| == 0 then cnt else CntStep(ops[|ops| - 1], CntAfter(ops[..|ops| - 1], cnt))
  }

  /**
    The start of `operator()`: the codeword, copied into every lane, fills
    `soft[2^level .. 2^(level+1))`; candidate 0 starts with metric 0 and
    every other with 1000, so that the first fork prefers candidate 0's
    branches; both offsets start at 0.
  */
  method Start(maxM: nat, soft: seq<Vec>, hard: seq<Vec>, met: seq<int>, message: seq<Vec>,
               codeword: seq<Int8>, level: nat) returns (s: Machine)
    requires maxM <= 30 && level <= maxM && |met| >= 1 && Pow2(level) <= |codeword|
    requires Valid(Machine(soft, hard, met, message, 0, 0), maxM) && 2 * Pow2(level) <= |soft|
    ensures Valid(s, maxM) && |s.met| == |met| && s.hard == hard && s.mesg == message
    ensures forall j :: Pow2(level) <= j < 2 * Pow2(level) ==> s.soft[j] == Dup(codeword[j - Pow2(level)], |met|)
    ensures forall j :: 0 <= j < |soft| && !(Pow2(level) <= j < 2 * Pow2(level)) ==> s.soft[j] == soft[j]
    ensures s.met[0] == 0 && forall k :: 1 <= k < |met| ==> s.met[k] == 1000
    ensures s.idx == 0 && s.cnt == 0
  {
    var n, w := Pow2(level), |met|;
    Pow2Monotone(level, maxM);
    var soft' := soft;
    var i := 0;
    while i < n
      invariant 0 <= i <= n && |soft'| == |soft| && Width(soft', w)
      invariant forall j :: n <= j < n + i ==> soft'[j] == Dup(codeword[j - n], w)
      invariant forall j :: 0 <= j < |soft| && !(n <= j < n + i) ==> soft'[j] == soft[j]
    {
      soft' := soft'[i + n := Dup(codeword[i], w)];
      i := i + 1;
    }
    var met' := met[0 := 0];
    var k := 1;
    while k < w
      invariant 1 <= k <= w && |met'| == w && met'[0] == 0
      invariant forall q :: 1 <= q < k ==> met'[q] == 1000
    {
      met' := met'[k := 1000];
      k := k + 1;
    }
    s := Machine(soft', hard, met', message, 0, 0);
  }

  /** The starting metrics put the best candidate at 0. */
  lemma StartLowest(met: seq<int>)
    requires |met| >= 1 && met[0] == 0 && forall k :: 1 <= k < |met| ==> met[k] == 1000
    ensures Lowest(met) == 0
  {
    var k :| 0 <= k < |met| && met[k] == Lowest(met);
    assert Lowest(met) <= met[0];
  }

  /** `Step` seen only through the bookkeeping the loop of `Run` keeps. */
  method Advance(s: Machine, maxM: nat, op: Byte) returns (r: Result<Machine, Fault>)
    requires maxM <= 30 && Valid(s, maxM)
    ensures r.Ok? ==> Valid(r.value, maxM) && |r.value.met| == |s.met| && |r.value.mesg| == |s.mesg|
    ensures r.Ok? ==> r.value.idx == IdxStep(op, s.idx) && r.value.cnt == CntStep(op, s.cnt)
    ensures r.Ok? ==> Lowest(r.value.met) >= Lowest(s.met)
  {
    r := Step(s, maxM, op);
  }

  /**
    `operator()(metric, message, codeword, program)`: read the level, load
    the codeword, then run opcodes until the 255. When it finishes, `idx`
    and `cnt` are what the opcodes' bookkeeping gives, the buffers have kept
    their sizes, and no metric is negative.
  */
  method Run(maxM: nat, soft: seq<Vec>, hard: seq<Vec>, met: seq<int>, message: seq<Vec>,
             codeword: seq<Int8>, program: seq<Byte>) returns (r: Result<Machine, Fault>)
    requires maxM <= 30 && Valid(Machine(soft, hard, met, message, 0, 0), maxM)
    ensures |program| == 0 ==> r == Fail(EmptyProgram)
    ensures |program| >= 1 && program[0] > maxM ==> r == Fail(LevelTooLarge)
    ensures |program| >= 1 && program[0] <= maxM && |codeword| < Pow2(program[0]) ==> r == Fail(ShortCodeword)
    ensures r.Ok? ==> |program| >= 1 && Testbench.SentinelFrom(program, 1) < |program|
    ensures r.Ok? ==> Valid(r.value, maxM) && |r.value.met| == |met| && |r.value.mesg| == |message|
    ensures r.Ok? ==>
      var body := program[1..Testbench.SentinelFrom(program, 1)];
      r.value.idx == IdxAfter(body, 0) && r.value.cnt == CntAfter(body, 0)
    ensures r.Ok? ==> forall k :: 0 <= k < |met| ==> r.value.met[k] >= 0
  {
    if |program| == 0 {
      return Fail(EmptyProgram);
    }
    var level := program[0];
    if level > maxM {
      return Fail(LevelTooLarge);
    }
    if |codeword| < Pow2(level) {
      return Fail(ShortCodeword);
    }
    Pow2Monotone(level, maxM);
    var s := Start(maxM, soft, hard, met, message, codeword, level);
    StartLowest(s.met);
    var pc := 1;
    while pc < |program| && program[pc] != 255
      invariant 1 <= pc <= |program|
      invariant Testbench.SentinelFrom(program, 1) == Testbench.SentinelFrom(program, pc)
      invariant Valid(s, maxM) && |s.met| == |met| && |s.mesg| == |message|
      invariant s.idx == IdxAfter(program[1..pc], 0) && s.cnt == CntAfter(program[1..pc], 0)
      invariant Lowest(s.met) >= 0
      decreases |program| - pc
    {
      var step := Advance(s, maxM, program[pc]);
      if step.Fail? {
        return Fail(step.error);
      }
      assert program[1..pc + 1][..pc - 1] == program[1..pc];
      s := step.value;
      pc := pc + 1;
    }
    if pc == |program| {
      return Fail(NoSentinel);
    }
    r := Ok(s);
  }

  // Balanced programs.

  /**
    The shape of a decoder program: a leaf opcode (`rate0`, `rate1` or
    `rep`), or a node at opcode level `l` whose two subtrees sit between
    `left`, `right` and `comb` opcodes of that level.
  */
  datatype Tree = Leaf(op: Byte) | Node(l: nat, lo: Tree, hi: Tree)

  predicate WellShaped(t: Tree)
  {
    match t
    case Leaf(op) => 3 <= op / 32 <= 5
    case Node(l, lo, hi) => l <= 29 && WellShaped(lo) && WellShaped(hi)
  }

  /** The opcodes of a tree, in the order the decoder runs them. */
  function Flatten(t: Tree): (ops: seq<Byte>)
    requires WellShaped(t)
    ensures |ops| >= 1
  {
    match t
    case Leaf(op) => [op]
    case Node(l, lo, hi) => [l] + Flatten(lo) + [32 + l] + Flatten(hi) + [64 + l]
  }

  lemma {:induction false} IdxAfterAppend(a: seq<Byte>, b: seq<Byte>, idx: int)
    ensures IdxAfter(a + b, idx) == IdxAfter(b, IdxAfter(a, idx))
    decreases |b|
  {
    if |b| == 0 {
      assert a + b == a;
    } else {
      assert (a + b)[..|a + b| - 1] == a + b[..|b| - 1];
      IdxAfterAppend(a, b[..|b| - 1], idx);
    }
  }

  /**
    A well-shaped program leaves `idx` where it found it. Inside a node the
    right subtree runs at `idx + 2^l`, just after the left subtree's
    `2^l` decisions, and `comb` brings `idx` back before it merges them.
  */
  lemma {:induction false} IdxBalanced(t: Tree, idx: int)
    requires WellShaped(t)
    ensures IdxAfter(Flatten(t), idx) == idx
  {
    match t
    case Leaf(op) =>
      LeafBalanced(op, idx);
    case Node(l, lo, hi) =>
      IdxBalanced(lo, idx);
      IdxBalanced(hi, idx + Pow2(l));
      NodeBalanced(l, Flatten(lo), Flatten(hi), idx);
      assert Flatten(t) == [l as Byte] + Flatten(lo) + [(32 + l) as Byte] + Flatten(hi) + [(64 + l) as Byte];
  }

  /** `rate0`, `rate1` and `rep` leave `idx` alone. */
  lemma LeafBalanced(op: Byte, idx: int)
    requires 3 <= op / 32 <= 5
    ensures IdxAfter([op], idx) == idx
  {
    assert [op][..0] == [];
  }

  /** The node case, given what the subtrees do. */
  lemma NodeBalanced(l: nat, lo: seq<Byte>, hi: seq<Byte>, idx: int)
    requires l <= 29
    requires IdxAfter(lo, idx) == idx && IdxAfter(hi, idx + Pow2(l)) == idx + Pow2(l)
    ensures IdxAfter([l as Byte] + lo + [(32 + l) as Byte], idx) == idx + Pow2(l)
    ensures IdxAfter([l as Byte] + lo + [(32 + l) as Byte] + hi + [(64 + l) as Byte], idx) == idx
  {
    var a, b, c := [l as Byte], [(32 + l) as Byte], [(64 + l) as Byte];
    assert a[..0] == [] && b[..0] == [] && c[..0] == [];
    IdxAfterAppend(a, lo, idx);
    IdxAfterAppend(a + lo, b, idx);
    IdxAfterAppend(a + lo + b, hi, idx);
    IdxAfterAppend(a + lo + b + hi, c, idx);
  }
}
