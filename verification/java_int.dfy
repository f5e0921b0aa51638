/** Two's-complement integers of the Java virtual machine.
    Java's `int` and `long` wrap modulo 2^32 and 2^64; Dafny's `int` does not,
    so every place where the modelled code can overflow applies `Wrap`. */
module JavaInt {

  /** The two widths the modelled code computes in. */
  datatype Width = W32 | W64

  function Modulus(w: Width): (m: int)
    ensures m > 1 && m % 2 == 0
  {
    match w
    case W32 => 0x1_0000_0000
    case W64 => 0x1_0000_0000_0000_0000
  }

  /** `Integer.MIN_VALUE` / `Long.MIN_VALUE`. */
  function MinValue(w: Width): int {
    match w
    case W32 => -0x8000_0000
    case W64 => -0x8000_0000_0000_0000
  }

  /** `Integer.MAX_VALUE` / `Long.MAX_VALUE`. */
  function MaxValue(w: Width): int {
    match w
    case W32 => 0x7FFF_FFFF
    case W64 => 0x7FFF_FFFF_FFFF_FFFF
  }

  predicate InRange(x: int, w: Width) {
    MinValue(w) <= x <= MaxValue(w)
  }

  type Int32 = x: int | -0x8000_0000 <= x <= 0x7FFF_FFFF
  type Int64 = x: int | -0x8000_0000_0000_0000 <= x <= 0x7FFF_FFFF_FFFF_FFFF

  /** The value a Java arithmetic result of width `w` holds when the exact result is `x`. */
  function Wrap(x: int, w: Width): (r: int)
    ensures InRange(r, w)
    ensures (x - r) % Modulus(w) == 0
  {
    match w
    case W32 => (x + 0x8000_0000) % 0x1_0000_0000 - 0x8000_0000
    case W64 => (x + 0x8000_0000_0000_0000) % 0x1_0000_0000_0000_0000 - 0x8000_0000_0000_0000
  }

  /** A representable result is kept as it is. */
  lemma WrapInRange(x: int, w: Width)
    requires InRange(x, w)
    ensures Wrap(x, w) == x
  {
  }

  /** Wrapping is determined by the residue modulo 2^width. */
  lemma WrapCongruent(x: int, y: int, w: Width)
    requires (x - y) % Modulus(w) == 0
    ensures Wrap(x, w) == Wrap(y, w)
  {
    var m := Modulus(w);
    var h := -MinValue(w);
    var d := (x - y) / m;
    assert x + h == (y + h) + d * m;
    ModAddMultiple(y + h, d, m);
  }

  /** Adding a multiple of `m` does not change the remainder modulo `m`. */
  lemma ModAddMultiple(a: int, d: int, m: int)
    requires m > 0
    ensures (a + d * m) % m == a % m
  {
    var n := a + d * m;
    var k := (a / m + d) - n / m;
    assert k * m == n % m - a % m;
    MulAtLeastOne(k, m);
  }

  /** A non-zero multiple of a positive `m` is at least `m` away from zero. */
  lemma MulAtLeastOne(k: int, m: int)
    requires m > 0
    ensures k >= 1 ==> k * m >= m
    ensures k <= -1 ==> k * m <= -m
  {
  }

  /** Wrapping an operand of a sum first does not change the wrapped sum. */
  lemma WrapAddLeft(a: int, b: int, w: Width)
    ensures Wrap(Wrap(a, w) + b, w) == Wrap(a + b, w)
  {
    var m := Modulus(w);
    var q := (a - Wrap(a, w)) / m;
    assert a - Wrap(a, w) == q * m;
    assert ((Wrap(a, w) + b) - (a + b)) == -q * m;
    WrapCongruent(Wrap(a, w) + b, a + b, w);
  }

  /** Negating a wrapped value wraps like negating the exact one. */
  lemma WrapNeg(x: int, w: Width)
    ensures Wrap(-Wrap(x, w), w) == Wrap(-x, w)
  {
    var m := Modulus(w);
    var q := (x - Wrap(x, w)) / m;
    assert x - Wrap(x, w) == q * m;
    assert -Wrap(x, w) - (-x) == q * m;
    WrapCongruent(-Wrap(x, w), -x, w);
  }

  /** Wrapping the accumulator of `v * k + d` first does not change the wrapped
      result. */
  lemma WrapMulAdd(x: int, k: int, d: int, w: Width)
    ensures Wrap(Wrap(x, w) * k + d, w) == Wrap(x * k + d, w)
  {
    var m := Modulus(w);
    var q := (x - Wrap(x, w)) / m;
    assert x - Wrap(x, w) == q * m;
    assert (Wrap(x, w) * k + d) - (x * k + d) == (-(q * k)) * m;
    WrapCongruent(Wrap(x, w) * k + d, x * k + d, w);
  }
}
