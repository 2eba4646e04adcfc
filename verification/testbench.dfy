/**
  The two pieces of the test bench that compute something: `PolarTransform`,
  the plain transform used to check the encoders, and the counting loop of
  `PolarHistogram`, which tallies the bytes of a decoder program.
*/
module Testbench {
  import opened Common
  import opened Quant
  import opened Butterfly
  import Compiler

  /**
    `PolarTransform<int8_t, M>`: the pair loop `out[i] = qmul(in[i], in[i+1])`,
    `out[i+1] = in[i+1]`, then the stages `h = 2, ..., N/2`. The loops compute
    the recursive transform; on hard input the output is hard.
  */
  method Transform(input: seq<Int8>, ghost m: nat) returns (output: seq<Int8>)
    requires m >= 1 && |input| == Pow2(m)
    ensures output == Polar(Qmul, input, m)
    ensures AllHard(input) ==> AllHard(output)
  {
    var n := |input|;
    Pow2Tiled(m, 1);
    var pairs: seq<Int8> := [];
    var i := 0;
    while i < n
      invariant 0 <= i <= n && Tiled(i, 2)
      invariant pairs == Stage(Qmul, input[..i], 1)
    {
      TiledNext(i, n, 2);
      var in0 := input[i];
      var in1 := input[i + 1];
      PairAppend(Qmul, input, i);
      pairs := pairs + [Qmul(in0, in1), in1];
      i := i + 2;
    }
    assert input[..n] == input;
    PairStage(Qmul, input);
    output := Stages(Qmul, pairs, input, m);
    if AllHard(input) {
      PolarHard(input, m);
    }
  }

  /**
    Transforming twice gives back a hard input: the test bench relies on this
    when it re-encodes the decoder's output of a systematic code.
  */
  lemma TransformTwice(input: seq<Int8>, m: nat)
    requires |input| == Pow2(m) && AllHard(input)
    ensures Polar(Qmul, Polar(Qmul, input, m), m) == input
  {
    PolarInvolution(input, m);
  }

  /** Why the histogram loop stopped short of a result. */
  datatype HistogramFault = EmptyProgram | NoSentinel

  /** The position of the first 255 at or after `i`, if there is one. */
  function SentinelFrom(program: seq<Byte>, i: nat): (k: nat)
    requires i <= |program|
    ensures i <= k <= |program|
    ensures k < |program| ==> program[k] == 255
    ensures forall j :: i <= j < k ==> program[j] != 255
    decreases |program| - i
  {
    if i == |program| then i
    else if program[i] == 255 then i
    else SentinelFrom(program, i + 1)
  }

  /** Sum of the buckets. */
  function Total(h: seq<nat>): nat
  {
    if |h| == 0 then 0 else h[0] + Total(h[1..])
  }

  lemma {:induction false} TotalIncrement(h: seq<nat>, b: nat)
    requires b < |h|
    ensures Total(h[b := h[b] + 1]) == Total(h) + 1
    decreases |h|
  {
    if b > 0 {
      TotalIncrement(h[1..], b - 1);
      assert h[b := h[b] + 1][1..] == h[1..][b - 1 := h[b] + 1];
    }
  }

  lemma {:induction false} TotalZeros(n: nat)
    ensures Total(seq(n, _ => 0)) == 0
  {
    if n > 0 {
      TotalZeros(n - 1);
      assert seq(n, _ => 0)[1..] == seq(n - 1, _ => 0);
    }
  }

  /**
    The counting part of `PolarHistogram`: skip the header byte, then count
    each byte up to the first 255 into one of 256 buckets. Reading past the
    end of the program, which the source does not guard against, is a fault.
    On success bucket `b` holds the number of `b` bytes in the body, and the
    buckets add up to the body's length.
  */
  method Histogram(program: seq<Byte>) returns (r: Result<seq<nat>, HistogramFault>)
    ensures r.Ok? <==> |program| >= 1 && SentinelFrom(program, 1) < |program|
    ensures r.Fail? && |program| == 0 ==> r.error == EmptyProgram
    ensures r.Ok? ==> |r.value| == 256
    ensures r.Ok? ==> forall b :: 0 <= b < 256 ==>
      r.value[b] == multiset(program[1..SentinelFrom(program, 1)])[b]
    ensures r.Ok? ==> Total(r.value) == SentinelFrom(program, 1) - 1
  {
    if |program| == 0 {
      return Fail(EmptyProgram);
    }
    var hist: seq<nat> := seq(256, _ => 0);
    TotalZeros(256);
    var i := 1;
    while i < |program| && program[i] != 255
      invariant 1 <= i <= |program| && |hist| == 256
      invariant SentinelFrom(program, 1) == SentinelFrom(program, i)
      invariant forall b :: 0 <= b < 256 ==> hist[b] == multiset(program[1..i])[b]
      invariant Total(hist) == i - 1
      decreases |program| - i
    {
      var b := program[i];
      TotalIncrement(hist, b);
      assert program[1..i + 1] == program[1..i] + [b];
      hist := hist[b := hist[b] + 1];
      i := i + 1;
    }
    if i == |program| {
      return Fail(NoSentinel);
    }
    r := Ok(hist);
  }

  /**
    On a compiled program the count stops exactly at the closing 255, so the
    buckets add up to the program length minus the header and the sentinel,
    and they count the compiled body.
  */
  lemma CompiledProgramSentinel(frozen: seq<bv8>, level: nat, program: seq<Byte>)
    requires level <= 30 && |frozen| >= Compiler.PackedLen(level) && Compiler.WellFormed(frozen)
    requires |program| >= 3 && program[0] == level && program[|program| - 1] == 255
    requires program[1..|program| - 1] == Compiler.Compile(frozen, level)
    ensures SentinelFrom(program, 1) == |program| - 1
    ensures program[1..SentinelFrom(program, 1)] == Compiler.Compile(frozen, level)
  {
    var body := program[1..|program| - 1];
    assert forall j :: 0 <= j < |body| ==> body[j] != 255 by {
      Compiler.CompileNoSentinel(frozen, level);
    }
    assert forall j :: 1 <= j < |program| - 1 ==> program[j] == body[j - 1];
    SentinelAt(program, 1, |program| - 1);
  }

  /** With no 255 in `program[i..k)` and one at `k`, the scan from `i` stops at `k`. */
  lemma {:induction false} SentinelAt(program: seq<Byte>, i: nat, k: nat)
    requires i <= k < |program| && program[k] == 255
    requires forall j :: i <= j < k ==> program[j] != 255
    ensures SentinelFrom(program, i) == k
    decreases k - i
  {
    if i < k {
      SentinelAt(program, i + 1, k);
    }
  }
}
