/**
  The polar butterfly shared by the encoders, the testbench transform and the
  rate-1 decoder kernel. The source writes it as a pair stage followed by
  in-place stages `h = 2, 4, ..., N/2` doing `x[j] = x[j] * x[j+h]` on the
  lower half of every `2h` block. The model proves those loops compute the
  recursive transform `Polar`, stated once for any element type with a product
  (an `int8_t` or a vector of SIMD lanes).
*/
module Butterfly {
  import opened Common
  import opened Quant

  /** One butterfly over two halves: the lower half is multiplied by the upper one. */
  function Combine<T>(mul: (T, T) -> T, a: seq<T>, b: seq<T>): (c: seq<T>)
    requires |a| == |b|
    ensures |c| == 2 * |a|
    ensures forall i :: 0 <= i < |a| ==> c[i] == mul(a[i], b[i])
    ensures forall i :: |a| <= i < 2 * |a| ==> c[i] == b[i - |a|]
  {
    seq(|a|, i requires 0 <= i < |a| => mul(a[i], b[i])) + b
  }

  /** The polar transform of a block of `2^m` entries, by halves. */
  function Polar<T>(mul: (T, T) -> T, x: seq<T>, m: nat): (y: seq<T>)
    requires |x| == Pow2(m)
    ensures |y| == |x|
  {
    if m == 0 then x
    else Combine(mul, Polar(mul, x[..Pow2(m - 1)], m - 1), Polar(mul, x[Pow2(m - 1)..], m - 1))
  }

  /** The result of one in-place stage of width `h` over consecutive `2h` blocks. */
  function Stage<T>(mul: (T, T) -> T, x: seq<T>, h: nat): (y: seq<T>)
    requires h > 0 && Tiled(|x|, 2 * h)
    ensures |y| == |x|
    decreases |x|
  {
    if |x| == 0 then [] else Combine(mul, x[..h], x[h..2 * h]) + Stage(mul, x[2 * h..], h)
  }

  /** Every consecutive block of `2^s` entries transformed on its own. */
  function Blocks<T>(mul: (T, T) -> T, x: seq<T>, s: nat): (y: seq<T>)
    requires Tiled(|x|, Pow2(s))
    ensures |y| == |x|
    decreases |x|
  {
    if |x| == 0 then [] else Polar(mul, x[..Pow2(s)], s) + Blocks(mul, x[Pow2(s)..], s)
  }

  /** Appending one `2h` block to a tiled prefix appends one butterfly to its stage. */
  lemma {:induction false} StageAppend<T>(mul: (T, T) -> T, a: seq<T>, blk: seq<T>, h: nat)
    requires h > 0 && Tiled(|a|, 2 * h) && |blk| == 2 * h
    ensures Tiled(|a + blk|, 2 * h)
    ensures Stage(mul, a + blk, h) == Stage(mul, a, h) + Combine(mul, blk[..h], blk[h..])
    decreases |a|
  {
    TiledAdd(|a|, |blk|, 2 * h);
    var bf := Combine(mul, blk[..h], blk[h..]);
    if |a| == 0 {
      assert a + blk == blk[..h] + blk[h..] + [];
      StageUnfold(mul, blk[..h], blk[h..], [], h);
      assert Stage(mul, a, h) == [];
      ConcatAssoc(bf, [], []);
    } else {
      var rest := a[2 * h..];
      StageAppend(mul, rest, blk, h);
      AppendSlices(a, blk, h);
      StageUnfold(mul, a[..h], a[h..2 * h], rest + blk, h);
      StageUnfold(mul, a[..h], a[h..2 * h], rest, h);
      ConcatAssoc(Combine(mul, a[..h], a[h..2 * h]), Stage(mul, rest, h), bf);
    }
  }

  /** The slices of `a + blk` that `Stage` reads when `a` holds at least one block. */
  lemma AppendSlices<T>(a: seq<T>, blk: seq<T>, h: nat)
    requires 2 * h <= |a|
    ensures a + blk == a[..h] + a[h..2 * h] + (a[2 * h..] + blk)
    ensures a == a[..h] + a[h..2 * h] + a[2 * h..]
  {
  }

  lemma ConcatAssoc<T>(a: seq<T>, b: seq<T>, c: seq<T>)
    ensures a + (b + c) == a + b + c
  {
  }

  lemma {:induction false} BlocksOfOne<T>(mul: (T, T) -> T, x: seq<T>)
    ensures Tiled(|x|, 1)
    ensures Blocks(mul, x, 0) == x
    decreases |x|
  {
    if |x| > 0 {
      BlocksOfOne(mul, x[1..]);
      assert x == x[..1] + x[1..];
    }
  }

  lemma BlocksOfWhole<T>(mul: (T, T) -> T, x: seq<T>, m: nat)
    requires |x| == Pow2(m)
    ensures Tiled(|x|, Pow2(m))
    ensures Blocks(mul, x, m) == Polar(mul, x, m)
  {
    assert Tiled(|x| - Pow2(m), Pow2(m));
    assert x[..Pow2(m)] == x;
  }

  lemma BlocksUnfoldTwo<T>(mul: (T, T) -> T, x: seq<T>, s: nat)
    requires Tiled(|x|, Pow2(s + 1)) && |x| > 0
    ensures Tiled(|x|, Pow2(s)) && Tiled(|x[Pow2(s + 1)..]|, Pow2(s))
    ensures Blocks(mul, x, s)
         == Polar(mul, x[..Pow2(s)], s) + Polar(mul, x[Pow2(s)..Pow2(s + 1)], s) + Blocks(mul, x[Pow2(s + 1)..], s)
  {
    var h := Pow2(s);
    TiledHalf(|x|, h);
    TiledHalf(|x[2 * h..]|, h);
    var xs := x[h..];
    assert xs[..h] == x[h..2 * h];
    assert xs[h..] == x[2 * h..];
  }

  lemma StageUnfold<T>(mul: (T, T) -> T, p1: seq<T>, p2: seq<T>, rest: seq<T>, h: nat)
    requires h > 0 && |p1| == h && |p2| == h && Tiled(|rest|, 2 * h)
    ensures Tiled(|p1 + p2 + rest|, 2 * h)
    ensures Stage(mul, p1 + p2 + rest, h) == Combine(mul, p1, p2) + Stage(mul, rest, h)
  {
    var b := p1 + p2 + rest;
    assert Tiled(|b| - 2 * h, 2 * h);
    assert b[..h] == p1 && b[h..2 * h] == p2 && b[2 * h..] == rest;
  }

  /** A stage of width `2^s` turns transformed `2^s` blocks into transformed `2^(s+1)` blocks. */
  lemma {:induction false} StageOfBlocks<T>(mul: (T, T) -> T, x: seq<T>, s: nat)
    requires Tiled(|x|, Pow2(s + 1))
    ensures Tiled(|x|, Pow2(s))
    ensures Stage(mul, Blocks(mul, x, s), Pow2(s)) == Blocks(mul, x, s + 1)
    decreases |x|
  {
    var h := Pow2(s);
    TiledHalf(|x|, h);
    if |x| > 0 {
      var rest := x[2 * h..];
      StageOfBlocks(mul, rest, s);
      BlocksUnfoldTwo(mul, x, s);
      var p1 := Polar(mul, x[..h], s);
      var p2 := Polar(mul, x[h..2 * h], s);
      var br := Blocks(mul, rest, s);
      StageUnfold(mul, p1, p2, br, h);
      PolarOfPair(mul, x, s);
      BlocksUnfold(mul, x, s + 1);
    }
  }

  /** The transform of the first `2^(s+1)` entries is the butterfly of its two halves. */
  lemma PolarOfPair<T>(mul: (T, T) -> T, x: seq<T>, s: nat)
    requires 2 * Pow2(s) <= |x|
    ensures Polar(mul, x[..2 * Pow2(s)], s + 1)
         == Combine(mul, Polar(mul, x[..Pow2(s)], s), Polar(mul, x[Pow2(s)..2 * Pow2(s)], s))
  {
    var h := Pow2(s);
    var blk := x[..2 * h];
    assert blk[..h] == x[..h] && blk[h..] == x[h..2 * h];
  }

  /** `Blocks` peels off its first block. */
  lemma BlocksUnfold<T>(mul: (T, T) -> T, x: seq<T>, s: nat)
    requires Tiled(|x|, Pow2(s)) && |x| > 0
    ensures Pow2(s) <= |x| && Tiled(|x[Pow2(s)..]|, Pow2(s))
    ensures Blocks(mul, x, s) == Polar(mul, x[..Pow2(s)], s) + Blocks(mul, x[Pow2(s)..], s)
  {
  }

  /**
    One in-place stage: for every `2h` block starting at `i`, `c[j] = c[j] * c[j+h]`
    for `i <= j < i + h`.
  */
  method ApplyStage<T>(mul: (T, T) -> T, c0: seq<T>, h: nat) returns (c: seq<T>)
    requires h > 0 && Tiled(|c0|, 2 * h)
    ensures c == Stage(mul, c0, h)
  {
    c := c0;
    var n := |c0|;
    var i := 0;
    while i < n
      invariant 0 <= i <= n && Tiled(i, 2 * h) && |c| == n
      invariant c[..i] == Stage(mul, c0[..i], h)
      invariant c[i..] == c0[i..]
    {
      TiledNext(i, n, 2 * h);
      var d := ApplyButterfly(mul, c, i, h);
      var next := i + 2 * h;
      StageStep(mul, c0, c, d, i, next, h);
      c := d;
      i := next;
    }
    assert c0[..n] == c0;
    assert c[..n] == c;
  }

  /** One more butterfly block extends a staged prefix. */
  lemma StageStep<T>(mul: (T, T) -> T, c0: seq<T>, c: seq<T>, d: seq<T>, i: nat, next: nat, h: nat)
    requires h > 0 && Tiled(i, 2 * h) && next == i + 2 * h <= |c0| && |c| == |c0|
    requires c[..i] == Stage(mul, c0[..i], h) && c[i..] == c0[i..]
    requires |d| == |c| && d[..i] == c[..i] && d[i + 2 * h..] == c[i + 2 * h..]
    requires d[i..i + 2 * h] == Combine(mul, c[i..i + h], c[i + h..i + 2 * h])
    ensures Tiled(next, 2 * h)
    ensures d[..next] == Stage(mul, c0[..next], h) && d[next..] == c0[next..]
  {
    StageExtend(mul, c0, i, h);
    SuffixSlices(c, c0, i, h);
    var bf := Combine(mul, c0[i..i + h], c0[i + h..i + 2 * h]);
    assert d[i..i + 2 * h] == bf;
    PrefixJoin(d, i, 2 * h, Stage(mul, c0[..i], h), bf);
  }

  /** A prefix made of two known pieces. */
  lemma PrefixJoin<T>(x: seq<T>, i: nat, k: nat, a: seq<T>, b: seq<T>)
    requires i + k <= |x| && x[..i] == a && x[i..i + k] == b
    ensures x[..i + k] == a + b
  {
    assert x[..i + k] == x[..i] + x[i..i + k];
  }

  /** The stage of a longer tiled prefix ends with the butterfly of the new block. */
  lemma StageExtend<T>(mul: (T, T) -> T, c0: seq<T>, i: nat, h: nat)
    requires h > 0 && Tiled(i, 2 * h) && i + 2 * h <= |c0|
    ensures Tiled(i + 2 * h, 2 * h)
    ensures Stage(mul, c0[..i + 2 * h], h)
         == Stage(mul, c0[..i], h) + Combine(mul, c0[i..i + h], c0[i + h..i + 2 * h])
  {
    var blk := c0[i..i + 2 * h];
    BlockSlices(c0, i, h);
    StageAppend(mul, c0[..i], blk, h);
  }

  /** The slices that name the `2h` block at `i` and its halves. */
  lemma BlockSlices<T>(x: seq<T>, i: nat, h: nat)
    requires i + 2 * h <= |x|
    ensures x[..i] + x[i..i + 2 * h] == x[..i + 2 * h]
    ensures x[i..i + 2 * h][..h] == x[i..i + h]
    ensures x[i..i + 2 * h][h..] == x[i + h..i + 2 * h]
  {
  }

  /** Two sequences that agree from `i` on agree on the block at `i` and after it. */
  lemma SuffixSlices<T>(c: seq<T>, c0: seq<T>, i: nat, h: nat)
    requires i + 2 * h <= |c0| == |c| && c[i..] == c0[i..]
    ensures c[i..i + h] == c0[i..i + h]
    ensures c[i + h..i + 2 * h] == c0[i + h..i + 2 * h]
    ensures c[i + 2 * h..] == c0[i + 2 * h..]
  {
    assert forall k :: i <= k < |c| ==> c[k] == c[i..][k - i];
  }

  /** The inner loop of a stage: one butterfly on the `2h` block starting at `i`. */
  method ApplyButterfly<T>(mul: (T, T) -> T, c0: seq<T>, i: nat, h: nat) returns (c: seq<T>)
    requires h > 0 && i + 2 * h <= |c0|
    ensures |c| == |c0| && c[..i] == c0[..i] && c[i + 2 * h..] == c0[i + 2 * h..]
    ensures c[i..i + 2 * h] == Combine(mul, c0[i..i + h], c0[i + h..i + 2 * h])
  {
    c := c0;
    var j := i;
    while j < i + h
      invariant i <= j <= i + h && |c| == |c0|
      invariant c[..i] == c0[..i]
      invariant forall k :: i <= k < j ==> c[k] == mul(c0[k], c0[k + h])
      invariant c[j..] == c0[j..]
    {
      assert c[j + h] == c0[j + h];
      c := c[j := mul(c[j], c[j + h])];
      j := j + 1;
    }
    assert c[i + h..] == c0[i + h..];
  }

  /**
    The stages `h = 2, 4, ..., N/2`, run after the pair stage has transformed
    every aligned pair, complete the transform.
  */
  method Stages<T>(mul: (T, T) -> T, c0: seq<T>, ghost x: seq<T>, ghost m: nat) returns (c: seq<T>)
    requires m >= 1 && |x| == Pow2(m)
    requires Tiled(|x|, 2) && c0 == Blocks(mul, x, 1)
    ensures c == Polar(mul, x, m)
  {
    c := c0;
    var n := |c0|;
    var h := 2;
    ghost var s := 1;
    while h < n
      invariant 1 <= s <= m && h == Pow2(s) && Tiled(n, h)
      invariant c == Blocks(mul, x, s)
    {
      if s >= m {
        Pow2Monotone(m, s);
      }
      Pow2Tiled(m, s + 1);
      StageOfBlocks(mul, x, s);
      c := ApplyStage(mul, c, h);
      h := 2 * h;
      s := s + 1;
    }
    if s < m {
      Pow2Monotone(s + 1, m);
    }
    BlocksOfWhole(mul, x, m);
  }

  /** The pair stage on its own is the stage of width 1. */
  lemma PairStage<T>(mul: (T, T) -> T, x: seq<T>)
    requires Tiled(|x|, 2)
    ensures Tiled(|x|, 1)
    ensures Stage(mul, x, 1) == Blocks(mul, x, 1)
  {
    BlocksOfOne(mul, x);
    StageOfBlocks(mul, x, 0);
  }

  /** The pair loop `i += 2` appends one transformed pair at a time. */
  lemma PairAppend<T>(mul: (T, T) -> T, x: seq<T>, i: nat)
    requires Tiled(i, 2) && i + 2 <= |x|
    ensures Tiled(i + 2, 2)
    ensures Stage(mul, x[..i + 2], 1) == Stage(mul, x[..i], 1) + [mul(x[i], x[i + 1]), x[i + 1]]
  {
    assert Tiled(2, 2);
    TiledAdd(i, 2, 2);
    var blk := x[i..i + 2];
    StageAppend(mul, x[..i], blk, 1);
    assert x[..i + 2] == x[..i] + blk;
    assert Combine(mul, blk[..1], blk[1..]) == [mul(x[i], x[i + 1]), x[i + 1]];
  }

  // Algebra of the transform on hard (+1/-1) `int8_t` values.

  predicate AllHard(x: seq<Int8>) { forall i :: 0 <= i < |x| ==> IsHard(x[i]) }

  /** Element-wise `qmul`. */
  function MulSeq(x: seq<Int8>, y: seq<Int8>): (z: seq<Int8>)
    requires |x| == |y|
    ensures |z| == |x|
  {
    seq(|x|, i requires 0 <= i < |x| => Qmul(x[i], y[i]))
  }

  /** The all-(+1) vector: the all-zero word in the +1/-1 notation. */
  function Ones(n: nat): (r: seq<Int8>)
    ensures |r| == n
  {
    seq(n, _ => 1)
  }

  /** The transform maps hard vectors to hard vectors. */
  lemma {:induction false} PolarHard(x: seq<Int8>, m: nat)
    requires |x| == Pow2(m) && AllHard(x)
    ensures AllHard(Polar(Qmul, x, m))
  {
    if m > 0 {
      var h := Pow2(m - 1);
      PolarHard(x[..h], m - 1);
      PolarHard(x[h..], m - 1);
    }
  }

  lemma HardInterchange(a: Int8, b: Int8, c: Int8, d: Int8)
    requires IsHard(a) && IsHard(b) && IsHard(c) && IsHard(d)
    ensures Qmul(Qmul(a, c), Qmul(b, d)) == Qmul(Qmul(a, b), Qmul(c, d))
  {
  }

  /** On hard vectors the transform commutes with element-wise `qmul`: it is linear over GF(2). */
  lemma {:induction false} PolarMul(x: seq<Int8>, y: seq<Int8>, m: nat)
    requires |x| == Pow2(m) && |y| == Pow2(m) && AllHard(x) && AllHard(y)
    ensures Polar(Qmul, MulSeq(x, y), m) == MulSeq(Polar(Qmul, x, m), Polar(Qmul, y, m))
  {
    if m > 0 {
      var h := Pow2(m - 1);
      MulSeqHalves(x, y, h);
      PolarMul(x[..h], y[..h], m - 1);
      PolarMul(x[h..], y[h..], m - 1);
      PolarHard(x[..h], m - 1);
      PolarHard(x[h..], m - 1);
      PolarHard(y[..h], m - 1);
      PolarHard(y[h..], m - 1);
      var pa, pb := Polar(Qmul, x[..h], m - 1), Polar(Qmul, x[h..], m - 1);
      var pc, pd := Polar(Qmul, y[..h], m - 1), Polar(Qmul, y[h..], m - 1);
      CombineMul(pa, pb, pc, pd);
    }
  }

  lemma MulSeqHalves(x: seq<Int8>, y: seq<Int8>, h: nat)
    requires |x| == |y| && h <= |x|
    ensures MulSeq(x, y)[..h] == MulSeq(x[..h], y[..h])
    ensures MulSeq(x, y)[h..] == MulSeq(x[h..], y[h..])
  {
  }

  /** One butterfly commutes with element-wise `qmul` on hard vectors. */
  lemma CombineMul(pa: seq<Int8>, pb: seq<Int8>, pc: seq<Int8>, pd: seq<Int8>)
    requires |pa| == |pb| == |pc| == |pd|
    requires AllHard(pa) && AllHard(pb) && AllHard(pc) && AllHard(pd)
    ensures Combine(Qmul, MulSeq(pa, pc), MulSeq(pb, pd)) == MulSeq(Combine(Qmul, pa, pb), Combine(Qmul, pc, pd))
  {
    var lhs := Combine(Qmul, MulSeq(pa, pc), MulSeq(pb, pd));
    var rhs := MulSeq(Combine(Qmul, pa, pb), Combine(Qmul, pc, pd));
    forall i | 0 <= i < |lhs|
      ensures lhs[i] == rhs[i]
    {
      if i < |pa| {
        HardInterchange(pa[i], pb[i], pc[i], pd[i]);
      }
    }
  }

  /** Applying the transform twice gives back any hard vector. */
  lemma {:induction false} PolarInvolution(x: seq<Int8>, m: nat)
    requires |x| == Pow2(m) && AllHard(x)
    ensures Polar(Qmul, Polar(Qmul, x, m), m) == x
  {
    if m > 0 {
      var h := Pow2(m - 1);
      var a, b := x[..h], x[h..];
      PolarHard(a, m - 1);
      PolarHard(b, m - 1);
      var pa, pb := Polar(Qmul, a, m - 1), Polar(Qmul, b, m - 1);
      var y := Polar(Qmul, x, m);
      assert y[..h] == MulSeq(pa, pb);
      assert y[h..] == pb;
      PolarMul(pa, pb, m - 1);
      PolarInvolution(a, m - 1);
      PolarInvolution(b, m - 1);
      var r := Polar(Qmul, y, m);
      assert r == Combine(Qmul, MulSeq(a, b), b);
      forall i | 0 <= i < |x|
        ensures r[i] == x[i]
      {
        if i < h {
          QmulHardGroup(a[i], b[i], b[i]);
        }
      }
    }
  }

  /** The all-(+1) vector is fixed by the transform. */
  lemma PolarOnes(m: nat)
    ensures Polar(Qmul, Ones(Pow2(m)), m) == Ones(Pow2(m))
  {
    PolarKeepsOnes(Ones(Pow2(m)), m);
  }

  /** A block of +1 entries transforms to a block of +1 entries. */
  lemma {:induction false} PolarKeepsOnes(x: seq<Int8>, m: nat)
    requires |x| == Pow2(m) && forall i :: 0 <= i < |x| ==> x[i] == 1
    ensures forall i :: 0 <= i < |x| ==> Polar(Qmul, x, m)[i] == 1
  {
    if m > 0 {
      var h := Pow2(m - 1);
      PolarKeepsOnes(x[..h], m - 1);
      PolarKeepsOnes(x[h..], m - 1);
    }
  }
}
