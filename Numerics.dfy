/**
 * The C# 32-bit `int` operators the decoder uses, on mathematical integers. A value of C# type
 * `int` is an integer in [-2^31, 2^31); its bits are those of its two's complement.
 */
module Numerics {
  import opened Types

  const Int32Min: int := -0x8000_0000
  const Int32Max: int := 0x7FFF_FFFF

  predicate IsInt32(x: int) { Int32Min <= x <= Int32Max }

  function Pow2(n: nat): (r: nat)
    ensures r >= 1
  {
    if n == 0 then 1 else 2 * Pow2(n - 1)
  }

  /** The 32-bit wrap-around of unchecked C# arithmetic. */
  function Wrap32(x: int): (r: int)
    ensures IsInt32(r)
    ensures (r - x) % 0x1_0000_0000 == 0
    ensures IsInt32(x) ==> r == x
  {
    (x - Int32Min) % 0x1_0000_0000 + Int32Min
  }

  /** C# `a % b` on `int`: the remainder truncates toward zero and takes the sign of `a`. */
  function TruncRem(a: int, b: int): (r: int)
    requires b > 0
    ensures a >= 0 ==> 0 <= r < b
    ensures a < 0 ==> -b < r <= 0
  {
    if a >= 0 then a % b else -((-a) % b)
  }

  /**
   * With the sign bounds of TruncRem, this fixes the result: `a % b` differs from `a` by a
   * multiple of `b`.
   */
  lemma TruncRemCongruent(a: int, b: int)
    requires b > 0
    ensures (a - TruncRem(a, b)) % b == 0
  {
    if a >= 0 {
      assert a - TruncRem(a, b) == b * (a / b);
      MultipleMod(b, a / b);
    } else {
      var n, m := -a, (-a) / b;
      assert n == b * m + n % b;
      assert a - TruncRem(a, b) == b * (-m);
      MultipleMod(b, -m);
    }
  }

  /** A multiple of `b` leaves no remainder. */
  lemma MultipleMod(b: int, k: int)
    requires b > 0
    ensures (b * k) % b == 0
  {
    var x := b * k;
    var r := x % b;
    assert r == b * (k - x / b);
    SmallMultiple(b, k - x / b);
  }

  /** The only multiple of `b` in `0..b-1` is 0. */
  lemma SmallMultiple(b: int, d: int)
    requires b > 0 && 0 <= b * d < b
    ensures d == 0
  {
  }

  /** C# `x << s` on `int` for a shift count below 32: the low 32 bits of `x * 2^s`. */
  function ShiftLeft(x: int, s: nat): (r: int)
    requires s < 32
    ensures IsInt32(r)
  {
    Wrap32(x * Pow2(s))
  }

  /**
   * C# `x >> s` on `int`: an arithmetic shift, that is, division rounded toward minus infinity,
   * which is what Dafny's `/` does for a positive divisor.
   */
  function ShiftRight(x: int, s: nat): int
    requires IsInt32(x) && s < 32
  {
    x / Pow2(s)
  }

  /** The C# cast `(byte)x` in an unchecked context: the low eight bits of `x`. */
  function CastByte(x: int): (r: byte)
    ensures (x - r) % 256 == 0
  {
    x % 256
  }

  /** `(byte)(x % 256)`: the truncating remainder followed by the cast keeps the low eight bits. */
  lemma {:induction false} CastTruncRem(x: int)
    ensures CastByte(TruncRem(x, 256)) == x % 256
  {
    if x < 0 {
      assert x == -((-x) / 256) * 256 - (-x) % 256;
    }
  }

  /** Zero or minus one: for these the two's complement is the same bit repeated for ever. */
  predicate IsSignFill(x: int) { x == 0 || x == -1 }

  function Size(x: int): nat { if x >= 0 then x else -x - 1 }

  /**
   * C# `a | b`: bit by bit, the OR of the two's complements. For two 32-bit operands the
   * result is again a 32-bit value (see OrInt32), so this is the operator on `int`.
   */
  function Or(a: int, b: int): int
    decreases Size(a) + Size(b)
  {
    if IsSignFill(a) && IsSignFill(b) then
      (if a == -1 || b == -1 then -1 else 0)
    else
      2 * Or(a / 2, b / 2) + (if a % 2 == 1 || b % 2 == 1 then 1 else 0)
  }

  lemma {:induction false} OrZero(a: int)
    ensures Or(a, 0) == a
    decreases Size(a)
  {
    if !IsSignFill(a) {
      OrZero(a / 2);
    }
  }

  lemma {:induction false} OrMinusOne(a: int)
    ensures Or(a, -1) == -1
    decreases Size(a)
  {
    if !IsSignFill(a) {
      OrMinusOne(a / 2);
    }
  }

  /** When the bits of `b` lie below `s` and those of the first operand at `s` or above, OR is addition. */
  lemma {:induction false} OrDisjoint(h: int, b: int, s: nat)
    requires 0 <= b < Pow2(s)
    ensures Or(h * Pow2(s), b) == h * Pow2(s) + b
    decreases s
  {
    if s == 0 {
      OrZero(h);
    } else {
      var x := h * Pow2(s - 1);
      assert h * Pow2(s) == 2 * x;
      OrDisjoint(h, b / 2, s - 1);
    }
  }

  /** `-2^s` has every bit from `s` upward set, so OR with it clears nothing and sets those bits. */
  lemma {:induction false} OrAbsorb(h: int, s: nat)
    ensures Or(h * Pow2(s), -(Pow2(s) as int)) == -(Pow2(s) as int)
    decreases s
  {
    if s == 0 {
      OrMinusOne(h);
    } else {
      var x := h * Pow2(s - 1);
      assert h * Pow2(s) == 2 * x;
      assert -(Pow2(s) as int) == 2 * -(Pow2(s - 1) as int);
      OrAbsorb(h, s - 1);
    }
  }
}
