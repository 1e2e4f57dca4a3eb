/** Facts about Euclidean division that the solver does not find alone:
    remainders are unique, and two's-complement wrap-around composes. */
module Arith {
  /** Euclidean remainders are unique. */
  lemma ModUnique(y: int, n: int, a: int, b: int)
    requires n > 0 && 0 <= b < n && y == n * a + b
    ensures y % n == b
  {
    var q, r := y / n, y % n;
    assert y == n * q + r;
    assert n * (a - q) == r - b by {
      assert n * (a - q) == n * a - n * q;
    }
    if a > q {
      assert n * (a - q) >= n by { MulAtLeast(n, a - q); }
    } else if a < q {
      assert n * (q - a) == -(n * (a - q));
      MulAtLeast(n, q - a);
    }
  }

  lemma MulAtLeast(n: int, k: int)
    requires n > 0 && k >= 1
    ensures n * k >= n
  {
  }

  const Int32Min: int := -0x8000_0000
  const Int32Span: int := 0x1_0000_0000

  /** A C# `int` addition result in unchecked context: the mathematical value
      reduced to the two's-complement range [-2^31, 2^31). */
  function Wrap32(x: int): (r: int)
    ensures Int32Min <= r < Int32Min + Int32Span
    ensures Int32Min <= x < Int32Min + Int32Span ==> r == x
  {
    (x - Int32Min) % Int32Span + Int32Min
  }

  /** Wrapping an intermediate sum does not change the wrapped total. */
  lemma WrapAdd(x: int, y: int)
    ensures Wrap32(Wrap32(x) + y) == Wrap32(x + y)
  {
    var a := x - Int32Min;
    var z := a % Int32Span + y;
    assert a == Int32Span * (a / Int32Span) + a % Int32Span;
    assert z == Int32Span * (z / Int32Span) + z % Int32Span;
    assert x + y - Int32Min == Int32Span * (a / Int32Span + z / Int32Span) + z % Int32Span;
    ModUnique(x + y - Int32Min, Int32Span, a / Int32Span + z / Int32Span, z % Int32Span);
  }
}
