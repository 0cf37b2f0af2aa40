/** Two's-complement i32 arithmetic as the lowered LLVM code performs it:
    every add, multiply and truncation keeps the low 32 bits. */
module Arith32 {
  import opened Ir

  /** Truncation to i32 (LLVM trunc, a C++ cast to int32_t, or the wrap of an
      i32 add or mul). Dafny's `%` is Euclidean, so a negative value maps to
      its two's-complement pattern. */
  function Wrap(x: int): U32 {
    x % TWO32
  }

  /** llvm.add on i32. */
  function Add(a: U32, b: U32): U32 {
    Wrap(a + b)
  }

  /** llvm.mul on i32. */
  function Mul(a: U32, b: U32): U32 {
    Wrap(a * b)
  }

  lemma WrapShift(x: int, k: int)
    ensures Wrap(x + TWO32 * k) == Wrap(x)
  {
    var q := x / TWO32;
    assert x + TWO32 * k == TWO32 * (q + k) + Wrap(x);
  }

  /** Truncating an addend first does not change the truncated sum. */
  lemma WrapAddRight(a: int, b: int)
    ensures Wrap(a + Wrap(b)) == Wrap(a + b)
  {
    var q := b / TWO32;
    assert b == TWO32 * q + Wrap(b);
    WrapShift(a + Wrap(b), q);
  }

  /** Truncating a factor first does not change the truncated product. */
  lemma WrapMulRight(a: int, b: int)
    ensures Wrap(a * Wrap(b)) == Wrap(a * b)
  {
    var q := b / TWO32;
    assert b == TWO32 * q + Wrap(b);
    assert a * b == a * Wrap(b) + TWO32 * (a * q);
    WrapShift(a * Wrap(b), a * q);
  }

  /** One step of an i32 multiply-accumulate chain: truncating the running
      sum, the stride and the product changes nothing modulo 2^32. */
  lemma MulAddStep(prev: int, x: int, y: int)
    ensures Add(Wrap(prev), Mul(Wrap(x), Wrap(y))) == Wrap(prev + x * y)
  {
    var xy := x * y;
    WrapMulRight(Wrap(x), y);
    WrapMulRight(y, x);
    assert Wrap(x) * Wrap(y) == Wrap(y) * Wrap(x);
    WrapMulRight(Wrap(y), x);
    assert Wrap(x) * y == y * Wrap(x);
    assert Mul(Wrap(x), Wrap(y)) == Wrap(xy);
    WrapAddRight(Wrap(prev), xy);
    WrapAddRight(xy, prev);
  }

  /** Truncating both addends does not change the truncated sum. */
  lemma AddWraps(a: int, b: int)
    ensures Add(Wrap(a), Wrap(b)) == Wrap(a + b)
  {
    WrapAddRight(Wrap(a), b);
    WrapAddRight(b, a);
  }

  lemma WrapIdentity(x: int)
    requires 0 <= x < TWO32
    ensures Wrap(x) == x
  {
  }
}
