/** Two's-complement 32-bit integers, as C#'s `int` behaves in an unchecked context. */
module Int32Arith {

  const TwoTo31: int := 0x8000_0000
  const TwoTo32: int := 0x1_0000_0000

  /** The values a C# `int` can hold. */
  type int32 = x: int | -0x8000_0000 <= x < 0x8000_0000

  /** The int32 that an unchecked C# computation yields for the mathematical result `x`. */
  function Wrap32(x: int): (r: int32)
    ensures (x - r) % TwoTo32 == 0
    ensures -TwoTo31 <= x < TwoTo31 ==> r == x
  {
    var r := (x + TwoTo31) % TwoTo32 - TwoTo31;
    RemainderOfMultiple(x - r, (x + TwoTo31) / TwoTo32);
    r
  }

  lemma RemainderOfMultiple(a: int, q: int)
    requires a == q * TwoTo32
    ensures a % TwoTo32 == 0
  {
  }

  /** Two values that differ by a multiple of 2^32 wrap to the same int32. */
  lemma {:induction false} WrapCongruent(x: int, y: int, k: int)
    requires x - y == k * TwoTo32
    ensures Wrap32(x) == Wrap32(y)
  {
    var q := (y + TwoTo31) / TwoTo32;
    var r := (y + TwoTo31) % TwoTo32;
    assert y + TwoTo31 == q * TwoTo32 + r;
    assert x + TwoTo31 == (q + k) * TwoTo32 + r;
    ModOfDecomposition(x + TwoTo31, q + k, r);
  }

  lemma ModOfDecomposition(a: int, q: int, r: int)
    requires 0 <= r < TwoTo32 && a == q * TwoTo32 + r
    ensures a % TwoTo32 == r
  {
  }

  /** Wrapping an operand of a sum first does not change the wrapped sum. */
  lemma WrapAdd(a: int, b: int)
    ensures Wrap32(Wrap32(a) + Wrap32(b)) == Wrap32(a + b)
  {
    var ka := (a - Wrap32(a)) / TwoTo32;
    var kb := (b - Wrap32(b)) / TwoTo32;
    assert a - Wrap32(a) == ka * TwoTo32;
    assert b - Wrap32(b) == kb * TwoTo32;
    WrapCongruent(a + b, Wrap32(a) + Wrap32(b), ka + kb);
  }

  /** Wrapping a factor first does not change the wrapped product. */
  lemma WrapMul(a: int, c: int)
    ensures Wrap32(Wrap32(a) * c) == Wrap32(a * c)
  {
    var ka := (a - Wrap32(a)) / TwoTo32;
    assert a == Wrap32(a) + ka * TwoTo32;
    calc {
      a * c - Wrap32(a) * c;
      (a - Wrap32(a)) * c;
      (ka * TwoTo32) * c;
      (ka * c) * TwoTo32;
    }
    WrapCongruent(a * c, Wrap32(a) * c, ka * c);
  }
}
