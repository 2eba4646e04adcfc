/**
  The decoder works on vectors of `SIZE` int8 lanes, one lane per list
  candidate. This module gives those vectors lane-wise semantics (what
  the SIMD wrappers do lane by lane), the lane shuffle `vshuf`, and the
  selection that `std::nth_element` performs on the `2 * SIZE` forked
  path metrics.
*/
module Lanes {
  import opened Common
  import opened Quant
  import opened Butterfly

  /** One SIMD register: a value per lane. */
  type Vec = seq<Int8>

  /** Every vector of a buffer has `w` lanes. */
  predicate Width(b: seq<Vec>, w: nat)
  {
    forall i :: 0 <= i < |b| ==> |b[i]| == w
  }

  /** `vdup`: the same value in every lane. */
  function Dup(x: Int8, w: nat): (v: Vec)
    ensures |v| == w && forall k :: 0 <= k < w ==> v[k] == x
  {
    seq(w, _ => x)
  }

  /** Lane-wise `qmul`; total so that it can serve as the transform's product. */
  function VMul(a: Vec, b: Vec): (c: Vec)
    ensures |c| == Min(|a|, |b|)
    ensures forall k :: 0 <= k < |c| ==> c[k] == Qmul(a[k], b[k])
  {
    seq(Min(|a|, |b|), k requires 0 <= k < Min(|a|, |b|) => Qmul(a[k], b[k]))
  }

  /** Lane-wise `prod`. */
  function VProd(a: Vec, b: Vec): (c: Vec)
    requires |a| == |b|
    ensures |c| == |a| && forall k :: 0 <= k < |a| ==> c[k] == Prod(a[k], b[k])
  {
    seq(|a|, k requires 0 <= k < |a| => Prod(a[k], b[k]))
  }

  /** Lane-wise `madd`. */
  function VMadd(a: Vec, b: Vec, c: Vec): (d: Vec)
    requires |a| == |b| == |c|
    ensures |d| == |a| && forall k :: 0 <= k < |a| ==> d[k] == Madd(a[k], b[k], c[k])
  {
    seq(|a|, k requires 0 <= k < |a| => Madd(a[k], b[k], c[k]))
  }

  /** Lane-wise `signum`. */
  function VSignum(a: Vec): (c: Vec)
    ensures |c| == |a| && forall k :: 0 <= k < |a| ==> c[k] == Signum(a[k])
  {
    seq(|a|, k requires 0 <= k < |a| => Signum(a[k]))
  }

  /** `vshuf(a, sel)`: lane `k` of the result is lane `sel[k]` of `a`. */
  function Shuffle(a: Vec, sel: seq<nat>): (c: Vec)
    requires forall k :: 0 <= k < |sel| ==> sel[k] < |a|
    ensures |c| == |sel| && forall k :: 0 <= k < |sel| ==> c[k] == a[sel[k]]
  {
    seq(|sel|, k requires 0 <= k < |sel| => a[sel[k]])
  }

  /** Every vector of a buffer shuffled by the same map. */
  function ShuffleAll(b: seq<Vec>, sel: seq<nat>): (c: seq<Vec>)
    requires forall i, k :: 0 <= i < |b| && 0 <= k < |sel| ==> sel[k] < |b[i]|
    ensures |c| == |b| && forall i :: 0 <= i < |b| ==> c[i] == Shuffle(b[i], sel)
  {
    seq(|b|, i requires 0 <= i < |b| => Shuffle(b[i], sel))
  }

  /** Lane `k` of every vector: one candidate's view of a buffer. */
  function Column(b: seq<Vec>, k: nat): (c: seq<Int8>)
    requires forall i :: 0 <= i < |b| ==> k < |b[i]|
    ensures |c| == |b| && forall i :: 0 <= i < |b| ==> c[i] == b[i][k]
  {
    seq(|b|, i requires 0 <= i < |b| => b[i][k])
  }

  /** The lane-wise transform keeps the register width. */
  lemma {:induction false} PolarWidth(x: seq<Vec>, m: nat, w: nat)
    requires |x| == Pow2(m) && Width(x, w)
    ensures Width(Polar(VMul, x, m), w)
    decreases m
  {
    if m > 0 {
      var h := Pow2(m - 1);
      PolarWidth(x[..h], m - 1, w);
      PolarWidth(x[h..], m - 1, w);
    }
  }

  /**
    Transforming vectors lane-wise is transforming each lane on its own:
    the lanes of a register never mix in the butterfly.
  */
  lemma {:induction false} PolarColumn(x: seq<Vec>, m: nat, w: nat, k: nat)
    requires |x| == Pow2(m) && Width(x, w) && k < w
    ensures Width(Polar(VMul, x, m), w)
    ensures Column(Polar(VMul, x, m), k) == Polar(Qmul, Column(x, k), m)
    decreases m
  {
    PolarWidth(x, m, w);
    if m > 0 {
      var h := Pow2(m - 1);
      var lo, hi := x[..h], x[h..];
      var a, b := Polar(VMul, lo, m - 1), Polar(VMul, hi, m - 1);
      assert Width(a, w) && Column(a, k) == Polar(Qmul, Column(lo, k), m - 1) by {
        PolarColumn(lo, m - 1, w, k);
      }
      assert Width(b, w) && Column(b, k) == Polar(Qmul, Column(hi, k), m - 1) by {
        PolarColumn(hi, m - 1, w, k);
      }
      ColumnCombine(a, b, w, k);
      ColumnHalves(x, w, k, h);
    }
  }

  /** The halves of a column are the columns of the halves. */
  lemma ColumnHalves(x: seq<Vec>, w: nat, k: nat, h: nat)
    requires Width(x, w) && k < w && h <= |x|
    ensures Column(x, k)[..h] == Column(x[..h], k)
    ensures Column(x, k)[h..] == Column(x[h..], k)
  {
  }

  /** Lane `k` of one lane-wise butterfly is the butterfly of lane `k`. */
  lemma ColumnCombine(a: seq<Vec>, b: seq<Vec>, w: nat, k: nat)
    requires |a| == |b| && Width(a, w) && Width(b, w) && k < w
    ensures Width(Combine(VMul, a, b), w)
    ensures Column(Combine(VMul, a, b), k) == Combine(Qmul, Column(a, k), Column(b, k))
  {
    var y := Combine(VMul, a, b);
    var ca, cb := Column(a, k), Column(b, k);
    forall i | 0 <= i < |y|
      ensures |y[i]| == w && y[i][k] == Combine(Qmul, ca, cb)[i]
    {
      if i < |a| {
        assert y[i] == VMul(a[i], b[i]);
      }
    }
  }

  // Permutations and selection.

  /** `p` lists `0 .. n-1` in some order. */
  predicate IsPerm(p: seq<nat>, n: nat)
  {
    |p| == n &&
    (forall i :: 0 <= i < n ==> p[i] < n) &&
    (forall i, j :: 0 <= i < j < n ==> p[i] != p[j])
  }

  /**
    What `nth_element(perm, perm + w, perm + 2w, less-by-fork)` leaves:
    a permutation of the `2w` indices whose first `w` entries index forks no
    larger than those of the last `w`. The order within each half, and which
    of two equal forks is kept, are unspecified.
  */
  predicate Selects(p: seq<nat>, fork: seq<int>, w: nat)
  {
    |fork| == 2 * w && IsPerm(p, 2 * w) &&
    forall i, j :: 0 <= i < w <= j < 2 * w ==> fork[p[i]] <= fork[p[j]]
  }

  /** The identity permutation `perm[k] = k`. */
  function Identity(n: nat): (p: seq<nat>)
    ensures IsPerm(p, n) && forall i :: 0 <= i < n ==> p[i] == i
  {
    seq(n, i => i)
  }

  /**
    One admissible `nth_element`: a selection pass that swaps the smallest
    remaining fork to the front, `w` times, starting from the identity.
  */
  method SelectSmallest(fork: seq<int>, w: nat) returns (p: seq<nat>)
    requires |fork| == 2 * w
    ensures Selects(p, fork, w)
  {
    p := Identity(2 * w);
    var i := 0;
    while i < w
      invariant 0 <= i <= w && IsPerm(p, 2 * w)
      invariant forall a, b :: 0 <= a < i <= b < 2 * w ==> fork[p[a]] <= fork[p[b]]
    {
      var best := i;
      var j := i + 1;
      while j < 2 * w
        invariant i < j <= 2 * w && i <= best < 2 * w
        invariant forall b :: i <= b < j ==> fork[p[best]] <= fork[p[b]]
      {
        if fork[p[j]] < fork[p[best]] {
          best := j;
        }
        j := j + 1;
      }
      p := Swap(p, i, best);
      i := i + 1;
    }
  }

  /** Exchange two entries; a permutation stays a permutation. */
  function Swap(p: seq<nat>, i: nat, j: nat): (q: seq<nat>)
    requires i < |p| && j < |p|
    ensures |q| == |p| && q[i] == p[j] && q[j] == p[i]
    ensures forall k :: 0 <= k < |p| && k != i && k != j ==> q[k] == p[k]
    ensures IsPerm(p, |p|) ==> IsPerm(q, |p|)
  {
    p[i := p[j]][j := p[i]]
  }
}
