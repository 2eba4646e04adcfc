/**
  The kernels of `PolarDecoder`. The decoder keeps a stack of soft blocks
  in `soft`: a kernel at level `l` reads the block `soft[2^l .. 2^(l+1))`
  and, going down, writes the block `soft[2^(l-1) .. 2^l)` of its child.
  Hard decisions live in `hard`, at the running offset `index`. Every
  value is a vector of lanes, one per list candidate, and `met` holds one
  path metric per lane.
*/
module Kernels {
  import opened Common
  import opened Quant
  import opened Butterfly
  import opened Lanes

  // Metric penalties.

  /** What deciding +1 costs a lane: the size of a negative soft value. */
  function NegPart(v: int): nat { if v < 0 then -v else 0 }

  /** What deciding -1 costs a lane: the size of a non-negative soft value. */
  function PosPart(v: int): nat { if v < 0 then 0 else v }

  /** Sum of the negative parts of lane `k` over `soft[lo .. hi)`. */
  function NegSum(soft: seq<Vec>, lo: nat, hi: nat, k: nat): nat
    requires lo <= hi <= |soft| && forall i :: lo <= i < hi ==> k < |soft[i]|
    decreases hi - lo
  {
    if hi == lo then 0 else NegSum(soft, lo, hi - 1, k) + NegPart(soft[hi - 1][k])
  }

  /** Sum of the non-negative parts of lane `k` over `soft[lo .. hi)`. */
  function PosSum(soft: seq<Vec>, lo: nat, hi: nat, k: nat): nat
    requires lo <= hi <= |soft| && forall i :: lo <= i < hi ==> k < |soft[i]|
    decreases hi - lo
  {
    if hi == lo then 0 else PosSum(soft, lo, hi - 1, k) + PosPart(soft[hi - 1][k])
  }

  /** A sum over an all-negative lane is the lane's total size, over a non-negative one zero. */
  lemma {:induction false} SumsOfSigns(soft: seq<Vec>, lo: nat, hi: nat, k: nat)
    requires lo <= hi <= |soft| && forall i :: lo <= i < hi ==> k < |soft[i]|
    ensures (forall i :: lo <= i < hi ==> soft[i][k] >= 0) ==> NegSum(soft, lo, hi, k) == 0
    ensures (forall i :: lo <= i < hi ==> soft[i][k] < 0) ==> PosSum(soft, lo, hi, k) == 0
    decreases hi - lo
  {
    if hi > lo {
      SumsOfSigns(soft, lo, hi - 1, k);
    }
  }

  // Going down the tree.

  /**
    `left<level>`: the child's soft block is the lane-wise `prod` of the two
    halves of the parent block. Nothing else in `soft` changes, in
    particular not the parent block, which `right` reads afterwards.
  */
  method Left(soft: seq<Vec>, level: nat, ghost w: nat) returns (out: seq<Vec>)
    requires level >= 1 && 2 * Pow2(level) <= |soft| && Width(soft, w)
    ensures |out| == |soft| && Width(out, w)
    ensures forall j :: Pow2(level - 1) <= j < Pow2(level) ==>
      out[j] == VProd(soft[j + Pow2(level - 1)], soft[j + Pow2(level)])
    ensures forall j :: 0 <= j < |soft| && !(Pow2(level - 1) <= j < Pow2(level)) ==> out[j] == soft[j]
  {
    var n, h := Pow2(level), Pow2(level - 1);
    out := soft;
    var i := 0;
    while i < h
      invariant 0 <= i <= h && |out| == |soft| && Width(out, w)
      invariant forall j :: h <= j < h + i ==> out[j] == VProd(soft[j + h], soft[j + n])
      invariant forall j :: 0 <= j < |soft| && !(h <= j < h + i) ==> out[j] == soft[j]
    {
      out := out[h + i := VProd(out[n + i], out[n + h + i])];
      i := i + 1;
    }
  }

  /**
    `right<level>`: with the left half decided, at `hard[index ..)`, the
    child's soft block is `madd(hard, first half, second half)` lane-wise.
  */
  method Right(soft: seq<Vec>, hard: seq<Vec>, level: nat, index: int, ghost w: nat) returns (out: seq<Vec>)
    requires level >= 1 && 2 * Pow2(level) <= |soft| && Width(soft, w) && Width(hard, w)
    requires 0 <= index && index + Pow2(level - 1) <= |hard|
    ensures |out| == |soft| && Width(out, w)
    ensures forall j :: Pow2(level - 1) <= j < Pow2(level) ==>
      out[j] == VMadd(hard[index + j - Pow2(level - 1)], soft[j + Pow2(level - 1)], soft[j + Pow2(level)])
    ensures forall j :: 0 <= j < |soft| && !(Pow2(level - 1) <= j < Pow2(level)) ==> out[j] == soft[j]
  {
    var n, h := Pow2(level), Pow2(level - 1);
    out := soft;
    var i := 0;
    while i < h
      invariant 0 <= i <= h && |out| == |soft| && Width(out, w)
      invariant forall j :: h <= j < h + i ==> out[j] == VMadd(hard[index + j - h], soft[j + h], soft[j + n])
      invariant forall j :: 0 <= j < |soft| && !(h <= j < h + i) ==> out[j] == soft[j]
    {
      out := out[h + i := VMadd(hard[index + i], out[n + i], out[n + h + i])];
      i := i + 1;
    }
  }

  /**
    What `comb` on a block of `2h` entries at `index` does to the buffer
    `hard`, giving `hard'`: the block becomes the butterfly of its halves;
    its right half and the rest of the buffer stay.
  */
  predicate CombOut(hard: seq<Vec>, h: nat, index: int, hard': seq<Vec>)
  {
    0 <= index && index + 2 * h <= |hard| == |hard'| &&
    hard'[index..index + 2 * h] == Combine(VMul, hard[index..index + h], hard[index + h..index + 2 * h]) &&
    (forall j :: 0 <= j < |hard| && !(index <= j < index + h) ==> hard'[j] == hard[j])
  }

  /**
    `comb<level>`: the decided halves at `hard[index ..)` are merged by one
    butterfly, lane-wise `qmul` of the first half by the second. The block
    becomes the `Combine` step of the transform; the rest of `hard` stays.
  */
  method Comb(hard: seq<Vec>, level: nat, index: int, ghost w: nat) returns (out: seq<Vec>)
    requires level >= 1 && 0 <= index && index + Pow2(level) <= |hard| && Width(hard, w)
    ensures Width(out, w)
    ensures CombOut(hard, Pow2(level - 1), index, out)
  {
    var h := Pow2(level - 1);
    out := Butterflies(hard, index, h, w);
    CombBlock(hard, out, index, h);
  }

  /** The loop of `comb`: `hard[index + i] *= hard[index + h + i]` for `i < h`. */
  method Butterflies(hard: seq<Vec>, index: int, h: nat, ghost w: nat) returns (out: seq<Vec>)
    requires 0 <= index && index + 2 * h <= |hard| && Width(hard, w)
    ensures |out| == |hard| && Width(out, w)
    ensures forall j :: index <= j < index + h ==> out[j] == VMul(hard[j], hard[j + h])
    ensures forall j :: 0 <= j < |hard| && !(index <= j < index + h) ==> out[j] == hard[j]
  {
    out := hard;
    var i := 0;
    while i < h
      invariant 0 <= i <= h && |out| == |hard| && Width(out, w)
      invariant forall j :: index <= j < index + i ==> out[j] == VMul(hard[j], hard[j + h])
      invariant forall j :: 0 <= j < |hard| && !(index <= j < index + i) ==> out[j] == hard[j]
    {
      out := out[index + i := VMul(out[index + i], out[index + i + h])];
      i := i + 1;
    }
  }

  /** The pointwise effect of `comb` is one `Combine` on the block. */
  lemma CombBlock(hard: seq<Vec>, out: seq<Vec>, index: nat, h: nat)
    requires index + 2 * h <= |hard| == |out|
    requires forall j :: index <= j < index + h ==> out[j] == VMul(hard[j], hard[j + h])
    requires forall j :: 0 <= j < |hard| && !(index <= j < index + h) ==> out[j] == hard[j]
    ensures CombOut(hard, h, index, out)
  {
    var c := Combine(VMul, hard[index..index + h], hard[index + h..index + 2 * h]);
    forall j | 0 <= j < 2 * h
      ensures out[index + j] == c[j]
    {
    }
    assert out[index..index + 2 * h] == c;
  }

  // The leaves.

  /**
    `rate0<level>`: a block of frozen bits. Every decision is +1, and each
    lane pays, for every negative soft value of the block, its size.
  */
  method Rate0(soft: seq<Vec>, hard: seq<Vec>, met: seq<int>, level: nat, index: int)
    returns (hard': seq<Vec>, met': seq<int>)
    requires 2 * Pow2(level) <= |soft| && Width(soft, |met|) && Width(hard, |met|)
    requires 0 <= index && index + Pow2(level) <= |hard|
    ensures |hard'| == |hard| && Width(hard', |met|)
    ensures forall j :: index <= j < index + Pow2(level) ==> hard'[j] == Dup(1, |met|)
    ensures forall j :: 0 <= j < |hard| && !(index <= j < index + Pow2(level)) ==> hard'[j] == hard[j]
    ensures |met'| == |met|
    ensures forall k :: 0 <= k < |met| ==>
      met'[k] == met[k] + NegSum(soft, Pow2(level), 2 * Pow2(level), k)
  {
    var n, w := Pow2(level), |met|;
    hard' := hard;
    var i := 0;
    while i < n
      invariant 0 <= i <= n && |hard'| == |hard| && Width(hard', w)
      invariant forall j :: index <= j < index + i ==> hard'[j] == Dup(1, w)
      invariant forall j :: 0 <= j < |hard| && !(index <= j < index + i) ==> hard'[j] == hard[j]
    {
      hard' := hard'[index + i := Dup(1, w)];
      i := i + 1;
    }
    met' := met;
    i := 0;
    assert forall k :: 0 <= k < w ==> NegSum(soft, n, n, k) == 0;
    while i < n
      invariant 0 <= i <= n && |met'| == w
      invariant forall k :: 0 <= k < w ==> met'[k] == met[k] + NegSum(soft, n, n + i, k)
    {
      var ignored;
      met', ignored := Penalize(met', met', soft[n + i]);
      i := i + 1;
    }
  }

  /**
    What `rate1<level>` for `level > 0` does to the buffers, giving
    `soft'`, `hard'` and `mesg'`: the hard block at `index` is the signs of
    the soft values (`SignsOut`), and its transform goes to `soft[0 .. n)`
    and to the message at `count` (`StoreOut`).
  */
  predicate Rate1Out(soft: seq<Vec>, hard: seq<Vec>, mesg: seq<Vec>, level: nat, count: int, index: int,
                     soft': seq<Vec>, hard': seq<Vec>, mesg': seq<Vec>)
  {
    level >= 1 && 2 * Pow2(level) <= |soft| && 0 <= index && index + Pow2(level) <= |hard| &&
    SignsOut(soft, hard, Pow2(level), index, hard') &&
    StoreOut(hard'[index..index + Pow2(level)], soft, mesg, level, count, soft', mesg')
  }

  /** The hard block of `n` entries at `index` holds the signs of `soft[n .. 2n)`; the rest stays. */
  predicate SignsOut(soft: seq<Vec>, hard: seq<Vec>, n: nat, index: int, hard': seq<Vec>)
  {
    2 * n <= |soft| && 0 <= index && index + n <= |hard| == |hard'| &&
    (forall j :: index <= j < index + n ==> hard'[j] == VSignum(soft[j - index + n])) &&
    (forall j :: 0 <= j < |hard| && !(index <= j < index + n) ==> hard'[j] == hard[j])
  }

  /**
    The transform of `block` is in `soft'[0 .. n)` and in `mesg'[count .. count + n)`;
    the rest of both buffers stays.
  */
  predicate StoreOut(block: seq<Vec>, soft: seq<Vec>, mesg: seq<Vec>, level: nat, count: int,
                     soft': seq<Vec>, mesg': seq<Vec>)
  {
    |block| == Pow2(level) <= |soft| == |soft'| && 0 <= count && count + Pow2(level) <= |mesg| == |mesg'| &&
    soft'[..Pow2(level)] == Polar(VMul, block, level) &&
    soft'[Pow2(level)..] == soft[Pow2(level)..] &&
    mesg'[count..count + Pow2(level)] == soft'[..Pow2(level)] &&
    mesg'[..count] == mesg[..count] && mesg'[count + Pow2(level)..] == mesg[count + Pow2(level)..]
  }

  /**
    `rate1<level>` for `level > 0`: a block without frozen bits. Each
    decision is the sign of its soft value, the metric is untouched, and
    the `2^level` message entries at `mesg[count ..)` are the transform of
    the decisions, computed in `soft[0 .. 2^level)` on the way.
  */
  method Rate1(soft: seq<Vec>, hard: seq<Vec>, mesg: seq<Vec>, level: nat, count: int, index: int, ghost w: nat)
    returns (soft': seq<Vec>, hard': seq<Vec>, mesg': seq<Vec>)
    requires level >= 1 && 2 * Pow2(level) <= |soft|
    requires Width(soft, w) && Width(hard, w) && Width(mesg, w)
    requires 0 <= index && index + Pow2(level) <= |hard|
    requires 0 <= count && count + Pow2(level) <= |mesg|
    ensures Width(hard', w) && Width(soft', w) && Width(mesg', w)
    ensures Rate1Out(soft, hard, mesg, level, count, index, soft', hard', mesg')
  {
    hard' := Signs(soft, hard, Pow2(level), index, w);
    soft', mesg' := Store(hard'[index..index + Pow2(level)], soft, mesg, level, count, w);
  }

  /** The transform of the decisions and the copy into the message, the rest of `rate1`. */
  method Store(block: seq<Vec>, soft: seq<Vec>, mesg: seq<Vec>, level: nat, count: int, ghost w: nat)
    returns (soft': seq<Vec>, mesg': seq<Vec>)
    requires level >= 1 && |block| == Pow2(level) <= |soft| && 0 <= count && count + Pow2(level) <= |mesg|
    requires Width(block, w) && Width(soft, w) && Width(mesg, w)
    ensures Width(soft', w) && Width(mesg', w)
    ensures StoreOut(block, soft, mesg, level, count, soft', mesg')
  {
    var n := Pow2(level);
    var out := Transform(block, level, w);
    soft' := out + soft[n..];
    mesg' := mesg[..count] + out + mesg[count + n..];
    PolarWidth(block, level, w);
  }

  /** The first loop of `rate1`: each decision is the sign of its soft value. */
  method Signs(soft: seq<Vec>, hard: seq<Vec>, n: nat, index: int, ghost w: nat) returns (hard': seq<Vec>)
    requires 2 * n <= |soft| && Width(soft, w) && Width(hard, w)
    requires 0 <= index && index + n <= |hard|
    ensures Width(hard', w)
    ensures SignsOut(soft, hard, n, index, hard')
  {
    hard' := hard;
    var i := 0;
    while i < n
      invariant 0 <= i <= n && |hard'| == |hard| && Width(hard', w)
      invariant forall j :: index <= j < index + i ==> hard'[j] == VSignum(soft[j - index + n])
      invariant forall j :: 0 <= j < |hard| && !(index <= j < index + i) ==> hard'[j] == hard[j]
    {
      hard' := hard'[index + i := VSignum(soft[n + i])];
      i := i + 1;
    }
  }

  /** The pair loop and the stages of `rate1`, on a block of decisions. */
  method Transform(block: seq<Vec>, level: nat, ghost w: nat) returns (out: seq<Vec>)
    requires level >= 1 && |block| == Pow2(level) && Width(block, w)
    ensures out == Polar(VMul, block, level)
    ensures Width(out, w)
  {
    var n := |block|;
    Pow2Tiled(level, 1);
    var pairs: seq<Vec> := [];
    var i := 0;
    while i < n
      invariant 0 <= i <= n && Tiled(i, 2)
      invariant pairs == Stage(VMul, block[..i], 1)
    {
      TiledNext(i, n, 2);
      PairAppend(VMul, block, i);
      pairs := pairs + [VMul(block[i], block[i + 1]), block[i + 1]];
      i := i + 2;
    }
    assert block[..n] == block;
    PairStage(VMul, block);
    out := Stages(VMul, pairs, block, level);
    PolarWidth(block, level, w);
  }

  // The list step.

  /**
    The `2w` candidate metrics of a fork over the soft block
    `soft[n .. 2n)`: lane `k` deciding +1 (entry `k`) pays the negative
    parts, lane `k` deciding -1 (entry `k + w`) the non-negative ones.
  */
  function Forks(met: seq<int>, soft: seq<Vec>, n: nat): (f: seq<int>)
    requires 2 * n <= |soft| && Width(soft, |met|)
    ensures |f| == 2 * |met|
  {
    var w := |met|;
    seq(2 * w, j requires 0 <= j < 2 * w =>
      if j < w then met[j] + NegSum(soft, n, 2 * n, j) else met[j - w] + PosSum(soft, n, 2 * n, j - w))
  }

  /** `map[k] = perm[k] % SIZE`: the lane each survivor comes from. */
  function Origins(perm: seq<nat>, w: nat): (sel: seq<nat>)
    requires |perm| >= w && w > 0
    ensures |sel| == w && forall k :: 0 <= k < w ==> sel[k] == perm[k] % w && sel[k] < w
  {
    seq(w, k requires 0 <= k < w => perm[k] % w)
  }

  /** `hrd[k] = perm[k] < SIZE ? 1 : -1`: the bit each survivor decided. */
  function Decisions(perm: seq<nat>, w: nat): (hrd: Vec)
    requires |perm| >= w
    ensures |hrd| == w && forall k :: 0 <= k < w ==> hrd[k] == (if perm[k] < w then 1 else -1)
  {
    seq(w, k requires 0 <= k < w => if perm[k] < w then 1 else -1)
  }

  /** The outcome of a fork: the buffers and metrics after it, and the selection made. */
  datatype Forked = Forked(soft: seq<Vec>, hard: seq<Vec>, met: seq<int>, mesg: seq<Vec>, perm: seq<nat>)

  /**
    `rep<level>`, and `rate1<0>`, which is the same computation on a block
    of one: every lane forks into a +1 and a -1 candidate, the `w` best of
    the `2w` survive (an `nth_element` selection), every buffer is
    re-laned so that survivor `k` carries the state of its origin lane,
    and the survivors' decisions go to `mesg[count]` and to the whole hard
    block. Only the lower `2^MAX_M` soft vectors are re-laned.
  */
  method Fork(soft: seq<Vec>, hard: seq<Vec>, met: seq<int>, mesg: seq<Vec>, level: nat, count: int, index: int)
    returns (r: Forked)
    requires |met| >= 1 && Width(soft, |met|) && Width(hard, |met|) && Width(mesg, |met|)
    requires |soft| == 2 * |hard| && 2 * Pow2(level) <= |soft|
    requires 0 <= index && index + Pow2(level) <= |hard|
    requires 0 <= count < |mesg|
    ensures Selects(r.perm, Forks(met, soft, Pow2(level)), |met|)
    ensures |r.met| == |met| && forall k :: 0 <= k < |met| ==> r.met[k] == Forks(met, soft, Pow2(level))[r.perm[k]]
    ensures var sel := Origins(r.perm, |met|);
      |r.soft| == |soft| && Width(r.soft, |met|) &&
      r.soft[..|hard|] == ShuffleAll(soft[..|hard|], sel) && r.soft[|hard|..] == soft[|hard|..]
    ensures var sel := Origins(r.perm, |met|);
      |r.hard| == |hard| && Width(r.hard, |met|) &&
      forall j :: 0 <= j < |hard| && !(index <= j < index + Pow2(level)) ==> r.hard[j] == Shuffle(hard[j], sel)
    ensures forall j :: index <= j < index + Pow2(level) ==> r.hard[j] == Decisions(r.perm, |met|)
    ensures var sel := Origins(r.perm, |met|);
      |r.mesg| == |mesg| && Width(r.mesg, |met|) &&
      r.mesg[..count] == ShuffleAll(mesg[..count], sel) &&
      r.mesg[count] == Decisions(r.perm, |met|) && r.mesg[count + 1..] == mesg[count + 1..]
  {
    var n, w := Pow2(level), |met|;
    var fork := ForkMetrics(met, soft, n);
    var perm := SelectSmallest(fork, w);
    var met' := seq(w, k requires 0 <= k < w => fork[perm[k]]);
    var sel := Origins(perm, w);
    var hrd := Decisions(perm, w);
    var soft' := ShuffleAll(soft[..|hard|], sel) + soft[|hard|..];
    var hard' := Place(ShuffleAll(hard, sel), index, n, hrd);
    var mesg' := Push(mesg, count, sel, hrd);
    r := Forked(soft', hard', met', mesg', perm);
  }

  /** `hrd[index .. index+n)` all set to `v`; the rest kept. */
  function Place(b: seq<Vec>, index: int, n: nat, v: Vec): (c: seq<Vec>)
    requires 0 <= index && index + n <= |b|
    ensures |c| == |b|
    ensures forall j :: 0 <= j < |b| && !(index <= j < index + n) ==> c[j] == b[j]
    ensures forall j :: index <= j < index + n ==> c[j] == v
    ensures Width(b, |v|) ==> Width(c, |v|)
  {
    b[..index] + seq(n, _ => v) + b[index + n..]
  }

  /**
    The message buffer after a fork: the rows already written follow their
    lanes' origins, row `count` receives the decisions, later rows are kept.
  */
  function Push(mesg: seq<Vec>, count: int, sel: seq<nat>, hrd: Vec): (c: seq<Vec>)
    requires 0 <= count < |mesg| && |sel| == |hrd| && Width(mesg, |hrd|)
    requires forall k :: 0 <= k < |sel| ==> sel[k] < |hrd|
    ensures |c| == |mesg| && Width(c, |hrd|)
    ensures c[..count] == ShuffleAll(mesg[..count], sel)
    ensures c[count] == hrd && c[count + 1..] == mesg[count + 1..]
  {
    var c := ShuffleAll(mesg[..count], sel) + [hrd] + mesg[count + 1..];
    assert forall j :: count < j < |c| ==> c[j] == mesg[j];
    c
  }

  /** The fork loops: every lane's metric copied twice, then the soft block's penalties added. */
  method ForkMetrics(met: seq<int>, soft: seq<Vec>, n: nat) returns (fork: seq<int>)
    requires 2 * n <= |soft| && Width(soft, |met|)
    ensures fork == Forks(met, soft, n)
  {
    var w := |met|;
    var minus, plus := met, met;
    var i := 0;
    assert forall k :: 0 <= k < w ==> NegSum(soft, n, n, k) == 0 && PosSum(soft, n, n, k) == 0;
    while i < n
      invariant 0 <= i <= n && |minus| == w && |plus| == w
      invariant forall k :: 0 <= k < w ==> minus[k] == met[k] + NegSum(soft, n, n + i, k)
      invariant forall k :: 0 <= k < w ==> plus[k] == met[k] + PosSum(soft, n, n + i, k)
    {
      minus, plus := Penalize(minus, plus, soft[n + i]);
      i := i + 1;
    }
    fork := minus + plus;
    ghost var f := Forks(met, soft, n);
    assert forall j :: 0 <= j < 2 * w ==> fork[j] == f[j] by {
      forall j | 0 <= j < 2 * w
        ensures fork[j] == f[j]
      {
        if j >= w {
          assert fork[j] == plus[j - w];
        }
      }
    }
  }

  /** The inner fork loop over the lanes of one soft vector. */
  method Penalize(minus: seq<int>, plus: seq<int>, v: Vec) returns (minus': seq<int>, plus': seq<int>)
    requires |minus| == |plus| == |v|
    ensures |minus'| == |plus'| == |v|
    ensures forall k :: 0 <= k < |v| ==> minus'[k] == minus[k] + NegPart(v[k]) && plus'[k] == plus[k] + PosPart(v[k])
  {
    minus', plus' := minus, plus;
    var k := 0;
    while k < |v|
      invariant 0 <= k <= |v| && |minus'| == |plus'| == |v|
      invariant forall q :: 0 <= q < k ==> minus'[q] == minus[q] + NegPart(v[q]) && plus'[q] == plus[q] + PosPart(v[q])
      invariant forall q :: k <= q < |v| ==> minus'[q] == minus[q] && plus'[q] == plus[q]
    {
      if v[k] < 0 {
        minus' := minus'[k := minus'[k] - v[k]];
      } else {
        plus' := plus'[k := plus'[k] + v[k]];
      }
      k := k + 1;
    }
  }

  /**
    What a survivor's metric is: the metric of the lane it forked from plus
    the penalty of the decision it carries. It never falls below the
    origin's old metric.
  */
  lemma ForkChoice(met: seq<int>, soft: seq<Vec>, n: nat, perm: seq<nat>, k: nat)
    requires |met| >= 1 && 2 * n <= |soft| && Width(soft, |met|)
    requires Selects(perm, Forks(met, soft, n), |met|) && k < |met|
    ensures var w, o := |met|, Origins(perm, |met|)[k];
      Forks(met, soft, n)[perm[k]] ==
        met[o] + (if Decisions(perm, w)[k] == 1 then NegSum(soft, n, 2 * n, o) else PosSum(soft, n, 2 * n, o))
    ensures Forks(met, soft, n)[perm[k]] >= met[Origins(perm, |met|)[k]]
  {
    HalfIndex(perm[k], |met|);
  }

  /** An index below `2w` names lane `j % w`, from the first half when `j < w`. */
  lemma HalfIndex(j: nat, w: nat)
    requires 0 < w && j < 2 * w
    ensures j < w ==> j % w == j
    ensures j >= w ==> j % w == j - w
  {
    if j >= w {
      assert j == 1 * w + (j - w);
    }
  }

  /** Sum of lane `k` over `soft[lo .. hi)`. */
  function SoftSum(soft: seq<Vec>, lo: nat, hi: nat, k: nat): int
    requires lo <= hi <= |soft| && forall i :: lo <= i < hi ==> k < |soft[i]|
    decreases hi - lo
  {
    if hi == lo then 0 else SoftSum(soft, lo, hi - 1, k) + soft[hi - 1][k]
  }

  /** The two penalties differ by the lane's soft sum. */
  lemma {:induction false} PenaltyDifference(soft: seq<Vec>, lo: nat, hi: nat, k: nat)
    requires lo <= hi <= |soft| && forall i :: lo <= i < hi ==> k < |soft[i]|
    ensures PosSum(soft, lo, hi, k) - NegSum(soft, lo, hi, k) == SoftSum(soft, lo, hi, k)
    decreases hi - lo
  {
    if hi > lo {
      PenaltyDifference(soft, lo, hi - 1, k);
    }
  }

  /**
    With a single lane the list step is the plain successive-cancellation
    decision: a repetition block decides +1 when its soft values sum to more
    than zero and -1 when they sum to less. A zero sum is a tie, which the
    selection may break either way.
  */
  lemma SingleLaneDecides(met: seq<int>, soft: seq<Vec>, n: nat, perm: seq<nat>)
    requires |met| == 1 && 2 * n <= |soft| && Width(soft, 1)
    requires Selects(perm, Forks(met, soft, n), 1)
    ensures SoftSum(soft, n, 2 * n, 0) > 0 ==> Decisions(perm, 1)[0] == 1
    ensures SoftSum(soft, n, 2 * n, 0) < 0 ==> Decisions(perm, 1)[0] == -1
  {
    PenaltyDifference(soft, n, 2 * n, 0);
    var f := Forks(met, soft, n);
    assert f[0] == met[0] + NegSum(soft, n, 2 * n, 0);
    assert f[1] == met[0] + PosSum(soft, n, 2 * n, 0);
    assert f[perm[0]] <= f[perm[1]];
    assert perm[0] != perm[1] && perm[0] < 2 && perm[1] < 2;
  }

  /**
    Each lane of the message block `rate1` writes is the transform of that
    lane's decisions; where the decisions are hard (no soft value was zero),
    transforming the message again gives the decisions back.
  */
  lemma Rate1Reencodes(block: seq<Vec>, level: nat, w: nat, k: nat)
    requires |block| == Pow2(level) && Width(block, w) && k < w
    ensures Width(Polar(VMul, block, level), w)
    ensures AllHard(Column(block, k)) ==>
      Polar(Qmul, Column(Polar(VMul, block, level), k), level) == Column(block, k)
  {
    PolarColumn(block, level, w, k);
    if AllHard(Column(block, k)) {
      PolarInvolution(Column(block, k), level);
    }
  }
}
