/** Integer types and small arithmetic shared by every part of the model. */
module Common {

  /** A signed 8-bit value (`int8_t`). */
  type Int8 = x: int | -128 <= x <= 127

  /** An unsigned 8-bit value (`uint8_t`) kept as an integer. */
  type Byte = x: int | 0 <= x <= 255

  /** `1 << n`. */
  function Pow2(n: nat): (r: nat)
    ensures r >= 1
  {
    if n == 0 then 1 else 2 * Pow2(n - 1)
  }

  lemma {:induction false} Pow2Add(a: nat, b: nat)
    ensures Pow2(a + b) == Pow2(a) * Pow2(b)
  {
    if a > 0 {
      Pow2Add(a - 1, b);
      assert Pow2(a + b) == 2 * Pow2(a - 1 + b);
    }
  }

  lemma {:induction false} Pow2Monotone(a: nat, b: nat)
    requires a <= b
    ensures Pow2(a) <= Pow2(b)
  {
    if a < b {
      Pow2Monotone(a, b - 1);
    }
  }

  /** A power of two, stated without an exponent. */
  predicate IsPow2(n: int)
    decreases if n > 0 then n else 0
  {
    n == 1 || (n >= 2 && n % 2 == 0 && IsPow2(n / 2))
  }

  lemma {:induction false} Pow2IsPow2(m: nat)
    ensures IsPow2(Pow2(m))
  {
    if m > 0 {
      Pow2IsPow2(m - 1);
    }
  }

  lemma IsPow2Double(h: int)
    requires IsPow2(h)
    ensures IsPow2(2 * h) && (2 * h) / 2 == h
  {
  }

  /** `n` is a whole number of blocks of width `d`. */
  predicate Tiled(n: nat, d: nat)
    requires d > 0
    decreases n
  {
    n == 0 || (n >= d && Tiled(n - d, d))
  }

  lemma {:induction false} TiledAdd(a: nat, b: nat, d: nat)
    requires d > 0 && Tiled(a, d) && Tiled(b, d)
    ensures Tiled(a + b, d)
  {
    if a > 0 {
      TiledAdd(a - d, b, d);
    }
  }

  lemma {:induction false} TiledNext(a: nat, b: nat, d: nat)
    requires d > 0 && Tiled(a, d) && Tiled(b, d) && a < b
    ensures a + d <= b && Tiled(b - a - d, d)
  {
    if a > 0 {
      TiledNext(a - d, b - d, d);
    } else {
      assert Tiled(b - d, d);
    }
  }

  lemma {:induction false} TiledHalf(n: nat, d: nat)
    requires d > 0 && Tiled(n, 2 * d)
    ensures Tiled(n, d)
  {
    if n > 0 {
      TiledHalf(n - 2 * d, d);
      assert Tiled(n - d, d);
    }
  }

  lemma {:induction false} Pow2Tiled(m: nat, s: nat)
    requires s <= m
    ensures Tiled(Pow2(m), Pow2(s))
  {
    if s == m {
      assert Tiled(Pow2(m) - Pow2(s), Pow2(s));
    } else {
      Pow2Tiled(m - 1, s);
      TiledAdd(Pow2(m - 1), Pow2(m - 1), Pow2(s));
    }
  }

  function Min(a: int, b: int): int { if a <= b then a else b }

  function Max(a: int, b: int): int { if a >= b then a else b }

  function Abs(a: int): nat { if a < 0 then -a else a }

  /** `std::min(std::max(x, -128), 127)`: saturation into the int8 range. */
  function Saturate(x: int): (r: Int8)
    ensures -128 <= x <= 127 ==> r == x
    ensures x > 127 ==> r == 127
    ensures x < -128 ==> r == -128
  {
    Min(Max(x, -128), 127)
  }

  /** Storing an `int` into an `int8_t`: two's complement truncation. */
  function Wrap8(x: int): (r: Int8)
    ensures -128 <= x <= 127 ==> r == x
    ensures (r - x) % 256 == 0
  {
    var m := x % 256;
    if m >= 128 then m - 256 else m
  }

  /** The outcome of an operation that can stop with a fault. */
  datatype Result<+T, +E> = Ok(value: T) | Fail(error: E)
}
