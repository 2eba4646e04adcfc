/**
  The scalar arithmetic of the decoder: `PolarHelper<int8_t>`, the saturating
  8-bit specialisation, next to the generic `PolarHelper<TYPE>` it replaces.
  Soft values are clipped log-likelihood ratios; hard values are +1/-1
  decisions, and a product of hard values plays the role of XOR.
*/
module Quant {
  import opened Common

  /** A hard decision: +1 or -1. */
  predicate IsHard(v: int) { v == 1 || v == -1 }

  /** `(v > 0) - (v < 0)`: the three-way classification of a soft value. */
  function Signum(v: Int8): (r: Int8)
    ensures r == 1 <==> v > 0
    ensures r == -1 <==> v < 0
    ensures r == 0 <==> v == 0
  {
    (if v > 0 then 1 else 0) - (if v < 0 then 1 else 0)
  }

  /** `(v >= 0) - (v < 0)`: a hard decision that never abstains. */
  function Decide(v: Int8): (r: Int8)
    ensures IsHard(r)
    ensures r == 1 <==> v >= 0
    ensures r * v == Abs(v)
  {
    (if v >= 0 then 1 else 0) - (if v < 0 then 1 else 0)
  }

  /** `std::abs(std::max<int8_t>(a, -127))`: -128 is first lifted to -127. */
  function Qabs(a: Int8): (r: Int8)
    ensures 0 <= r <= 127
    ensures a != -128 ==> r == Abs(a)
    ensures a == -128 ==> r == 127
  {
    Abs(Max(a, -127))
  }

  /** `std::min(a, b)`. */
  function Qmin(a: Int8, b: Int8): (r: Int8)
    ensures r <= a && r <= b
    ensures r == a || r == b
  {
    Min(a, b)
  }

  /** Sum in 16 bits, saturated back into 8 bits. */
  function Qadd(a: Int8, b: Int8): (r: Int8)
    ensures -128 <= a + b <= 127 ==> r == a + b
    ensures a + b > 127 ==> r == 127
    ensures a + b < -128 ==> r == -128
  {
    Saturate(a + b)
  }

  /** `a * b` stored back into an `int8_t`; only ever applied to hard values. */
  function Qmul(a: Int8, b: Int8): (r: Int8)
    ensures -128 <= a * b <= 127 ==> r == a * b
    ensures IsHard(a) && IsHard(b) ==> IsHard(r)
  {
    Wrap8(a * b)
  }

  /** The min-sum check-node update: `signum(a) * signum(b) * qmin(qabs(a), qabs(b))`. */
  function Prod(a: Int8, b: Int8): (r: Int8)
    ensures r == 0 <==> a == 0 || b == 0
    ensures Signum(r) == Signum(a) * Signum(b)
    ensures r != 0 ==> Abs(r) == Qmin(Qabs(a), Qabs(b))
    ensures Abs(r) <= Qabs(a) && Abs(r) <= Qabs(b)
  {
    Signum(a) * Signum(b) * Qmin(Qabs(a), Qabs(b))
  }

  /** The bit-node update `a * b + c` computed in 16 bits and saturated. */
  function Madd(a: Int8, b: Int8, c: Int8): (r: Int8)
    ensures -128 <= a * b + c <= 127 ==> r == a * b + c
    ensures a * b + c > 127 ==> r == 127
    ensures a * b + c < -128 ==> r == -128
  {
    Saturate(a * b + c)
  }

  /** Apply the correction `b` to `a` only when the selectors agree. */
  function Flip(a: Int8, b: Int8, c: Int8, d: Int8): (r: Int8)
    ensures c != d ==> r == a
    ensures c == d && IsHard(a) && IsHard(b) ==> r == a * b
  {
    if c == d then Qmul(a, b) else a
  }

  lemma QaddCommutes(a: Int8, b: Int8)
    ensures Qadd(a, b) == Qadd(b, a)
  {
  }

  lemma ProdCommutes(a: Int8, b: Int8)
    ensures Prod(a, b) == Prod(b, a)
  {
  }

  /** On hard values `qmul` is the group law of {+1, -1}. */
  lemma QmulHardGroup(a: Int8, b: Int8, c: Int8)
    requires IsHard(a) && IsHard(b) && IsHard(c)
    ensures Qmul(a, b) == Qmul(b, a)
    ensures Qmul(Qmul(a, b), c) == Qmul(a, Qmul(b, c))
    ensures Qmul(a, a) == 1 && Qmul(a, 1) == a
  {
  }

  /** A hard flip undone by the same flip. */
  lemma FlipInvolution(a: Int8, b: Int8, c: Int8, d: Int8)
    requires IsHard(a) && IsHard(b)
    ensures IsHard(Flip(a, b, c, d))
    ensures Flip(Flip(a, b, c, d), b, c, d) == a
  {
  }

  // The generic `PolarHelper<TYPE>` on an unbounded integer type: no saturation.

  function GenericSignum(v: int): int { (if v > 0 then 1 else 0) - (if v < 0 then 1 else 0) }

  function GenericProd(a: int, b: int): int
  {
    GenericSignum(a) * GenericSignum(b) * Min(Abs(a), Abs(b))
  }

  /**
    The int8 specialisation agrees with the generic helper except where it
    saturates: `prod` only differs by treating -128 as -127.
  */
  lemma ProdAgreesWithGeneric(a: Int8, b: Int8)
    ensures Signum(a) == GenericSignum(a)
    ensures Prod(a, b) == GenericProd(Max(a, -127), Max(b, -127))
    ensures a != -128 && b != -128 ==> Prod(a, b) == GenericProd(a, b)
  {
    var a', b' := Max(a, -127), Max(b, -127);
    assert Signum(a) == GenericSignum(a') && Signum(b) == GenericSignum(b');
    assert Qmin(Qabs(a), Qabs(b)) == Min(Abs(a'), Abs(b'));
  }

  /** A decided bit folded into the g-update: a hard `a` selects `c + b` or `c - b`. */
  lemma MaddHard(a: Int8, b: Int8, c: Int8)
    requires IsHard(a)
    ensures a == 1 ==> Madd(a, b, c) == Qadd(b, c)
    ensures a == -1 ==> Madd(a, b, c) == Saturate(c - b)
  {
  }
}
