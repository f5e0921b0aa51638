/** Integer helpers of `IntegerMath`: squaring in `int` and `long`, and
    multiplication by ten written with shifts. All three wrap on overflow. */
module IntegerMath {
  import opened JavaInt

  function TwoTo(k: nat): (r: nat)
    ensures r >= 1
  {
    if k == 0 then 1 else 2 * TwoTo(k - 1)
  }

  /** Java's `v << k`: bits pushed past the top of the word are lost. */
  function ShiftLeft(v: int, k: nat, w: Width): int {
    Wrap(v * TwoTo(k), w)
  }

  /** `IntegerMath.pow2(int)`: the square of `v` reduced to 32 bits. It is the exact
      square exactly as long as `|v| <= 46340`, the largest root below 2^31. */
  function Pow2Int(v: Int32): (r: Int32)
    ensures -46340 <= v <= 46340 ==> r == v * v && r >= 0
    ensures (r - v * v) % Modulus(W32) == 0
  {
    SmallSquareExact(v, 46340, W32);
    Wrap(v * v, W32)
  }

  /** `IntegerMath.pow2(long)`: the square of `v` reduced to 64 bits; exact and
      non-negative for `|v| <= 3037000499`. */
  function Pow2Long(v: Int64): (r: Int64)
    ensures -3037000499 <= v <= 3037000499 ==> r == v * v && r >= 0
    ensures (r - v * v) % Modulus(W64) == 0
  {
    SmallSquareExact(v, 3037000499, W64);
    Wrap(v * v, W64)
  }

  /** `IntegerMath.times10`: `(v << 3) + (v << 1)` is ten times `v` modulo 2^32,
      and so exactly `10 * v` whenever that fits in an `int`. */
  function Times10(v: Int32): (r: Int32)
    ensures r == Wrap(10 * v, W32)
    ensures InRange(10 * v, W32) ==> r == 10 * v
  {
    var r := Wrap(ShiftLeft(v, 3, W32) + ShiftLeft(v, 1, W32), W32);
    calc {
      r;
      Wrap(Wrap(v * 8, W32) + Wrap(v * 2, W32), W32);
      { WrapAddLeft(v * 8, Wrap(v * 2, W32), W32); }
      Wrap(Wrap(v * 2, W32) + v * 8, W32);
      { WrapAddLeft(v * 2, v * 8, W32); }
      Wrap(10 * v, W32);
    }
    if InRange(10 * v, W32) then WrapInRange(10 * v, W32); r else r
  }

  /** Squaring ignores Java's sign flip: `pow2(v) == pow2(-v)`, including for
      `Integer.MIN_VALUE`, whose negation wraps to itself. */
  lemma Pow2IntSymmetric(v: Int32)
    ensures Pow2Int(v) == Pow2Int(Wrap(-(v as int), W32))
  {
    var u := Wrap(-(v as int), W32);
    var m := Modulus(W32);
    var q := (-(v as int) - u) / m;
    assert u == -(v as int) - q * m;
    assert u * u - v * v == m * (q * q * m + 2 * v * q);
    WrapCongruent(u * u, v * v, W32);
  }

  /** The same symmetry for `pow2(long)`. */
  lemma Pow2LongSymmetric(v: Int64)
    ensures Pow2Long(v) == Pow2Long(Wrap(-(v as int), W64))
  {
    var u := Wrap(-(v as int), W64);
    var m := Modulus(W64);
    var q := (-(v as int) - u) / m;
    assert u == -(v as int) - q * m;
    assert u * u - v * v == m * (q * q * m + 2 * v * q);
    WrapCongruent(u * u, v * v, W64);
  }

  lemma SmallSquareExact(v: int, b: int, w: Width)
    requires 0 <= b && b * b <= MaxValue(w)
    ensures -b <= v <= b ==> Wrap(v * v, w) == v * v >= 0
  {
    if -b <= v <= b {
      SquareBound(v, b);
      WrapInRange(v * v, w);
    }
  }

  lemma SquareBound(v: int, b: int)
    requires -b <= v <= b
    ensures 0 <= v * v <= b * b
  {
    var a := if v < 0 then -v else v;
    assert v * v == a * a;
    assert a * a <= a * b <= b * b;
  }
}
