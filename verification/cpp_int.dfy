/** Integer semantics of the C++ types the timers compute with: `long long`
    (the representation type of every duration unit), `int` (the accumulator
    that `mean` gets from the literal `0`), `size_t` (vector sizes and the
    converted template index) and integer division, which truncates toward
    zero where Dafny's `/` is Euclidean. */
module CppInt {

  const Int64Min: int := -0x8000_0000_0000_0000
  const Int64Max: int := 0x7FFF_FFFF_FFFF_FFFF
  const Int32Min: int := -0x8000_0000
  const Int32Max: int := 0x7FFF_FFFF
  /** 2^32, the number of values of a 32-bit `int`. */
  const Int32Modulus: int := 0x1_0000_0000
  /** 2^64, the number of values of a 64-bit `size_t`. */
  const SizeModulus: int := 0x1_0000_0000_0000_0000

  predicate IsInt64(x: int) { Int64Min <= x <= Int64Max }

  predicate IsInt32(x: int) { Int32Min <= x <= Int32Max }

  /** `long long`, the representation type of the duration units. */
  type Int64 = x: int | IsInt64(x)

  /** Conversion of a wider integer to `int`: two's-complement wrap-around
      (the rule of C++20, and what every mainstream compiler did before). */
  function ToInt32(x: int): (r: int)
    ensures IsInt32(r)
    ensures (x - r) % Int32Modulus == 0
    ensures IsInt32(x) ==> r == x
  {
    (x - Int32Min) % Int32Modulus + Int32Min
  }

  /** Conversion of a signed integer to a 64-bit `size_t`: reduction modulo 2^64. */
  function ToSizeT(x: int): (r: nat)
    ensures r < SizeModulus
    ensures (x - r) % SizeModulus == 0
    ensures 0 <= x < SizeModulus ==> r == x
  {
    x % SizeModulus
  }

  /** An `int` template argument compared with a vector size: after the
      conversion to `size_t`, a negative index is never below any size a
      vector can have, so the comparison is an ordinary range check. */
  lemma IndexConversion(n: int, size: nat)
    requires IsInt32(n)
    requires size <= Int64Max
    ensures ToSizeT(n) < size <==> 0 <= n < size
  {
    if n < 0 {
      assert ToSizeT(n) == n + SizeModulus;
    }
  }

  /** C++ integer division by a positive divisor: the exact quotient
      truncated toward zero. */
  function TruncDiv(a: int, b: int): (q: int)
    requires b > 0
    ensures 0 <= a ==> 0 <= q && a - b < q * b <= a
    ensures a < 0 ==> q <= 0 && a <= q * b < a + b
  {
    if a >= 0 then a / b else -((-a) / b)
  }

  lemma MulMonotone(x: int, y: int, b: int)
    requires b > 0 && x <= y
    ensures x * b <= y * b
  {
    assert (y - x) * b >= 0;
  }

  /** Two multiples of b less than b apart have the same factor order:
      x*b < y*b + b means x <= y. */
  lemma MulWithinCancel(x: int, y: int, b: int)
    requires b > 0 && x * b < y * b + b
    ensures x <= y
  {
    assert (y + 1) * b == y * b + b;
    if x > y {
      MulMonotone(y + 1, x, b);
    }
  }

  /** Truncating division by a positive divisor preserves order. */
  lemma TruncDivMonotone(a1: int, a2: int, b: int)
    requires b > 0 && a1 <= a2
    ensures TruncDiv(a1, b) <= TruncDiv(a2, b)
  {
    var q1, q2 := TruncDiv(a1, b), TruncDiv(a2, b);
    if 0 <= a1 || a2 < 0 {
      MulWithinCancel(q1, q2, b);
    }
  }

  /** A truncated quotient a/n stays within any bounds that a/n itself
      respects: if n*lo <= a <= n*hi then lo <= TruncDiv(a, n) <= hi. */
  lemma TruncDivWithin(a: int, n: int, lo: int, hi: int)
    requires n > 0
    requires lo * n <= a <= hi * n
    ensures lo <= TruncDiv(a, n) <= hi
  {
    var q := TruncDiv(a, n);
    if 0 <= a {
      MulWithinCancel(lo, q, n);
      MulWithinCancel(q, hi, n);
    } else {
      MulWithinCancel(q, hi, n);
      MulWithinCancel(lo, q, n);
    }
  }
}
