/** Java's 32-bit int arithmetic on mathematical integers: wrap-around multiplication,
    division truncating toward zero, and the narrowing of a long by Long.intValue. */
module JavaInt {

  const TWO_32: int := 0x1_0000_0000
  const INT_MIN: int := -0x8000_0000
  const INT_MAX: int := 0x7fff_ffff

  predicate IsInt(x: int) {
    INT_MIN <= x <= INT_MAX
  }

  /** The int whose 32 low bits are those of x (two's complement). */
  function Wrap(x: int): (r: int)
    ensures IsInt(r)
    ensures (x - r) % TWO_32 == 0
  {
    (x - INT_MIN) % TWO_32 + INT_MIN
  }

  lemma WrapInt(x: int)
    requires IsInt(x)
    ensures Wrap(x) == x
  {
    assert 0 <= x - INT_MIN < TWO_32;
  }

  /** Java `a * b` on ints. */
  function Mul(a: int, b: int): (r: int)
    ensures IsInt(r)
  {
    Wrap(a * b)
  }

  /** Java `a / b` on ints when b != 0: the quotient rounded toward zero,
      with MIN_VALUE / -1 wrapping back to MIN_VALUE. */
  function Div(a: int, b: int): (r: int)
    requires b != 0
    ensures IsInt(r)
  {
    var q := Abs(a) / Abs(b);
    Wrap(if (a < 0) != (b < 0) then -q else q)
  }

  function Abs(x: int): nat {
    if x < 0 then -x else x
  }

  /** Long.intValue, the narrowing conversion from long to int. */
  function IntValue(n: int): (r: int)
    ensures IsInt(r)
  {
    Wrap(n)
  }

  /** Without overflow, Mul is the mathematical product. */
  lemma MulExact(a: int, b: int)
    requires IsInt(a * b)
    ensures Mul(a, b) == a * b
  {
    WrapInt(a * b);
  }

  /** For a non-negative int and a positive divisor, Div is Euclidean division. */
  lemma DivNonNegative(a: int, b: int)
    requires 0 <= a <= INT_MAX && 0 < b
    ensures Div(a, b) == a / b
  {
    assert a / b <= a by { DivAtMost(a, b); }
    WrapInt(a / b);
  }

  lemma DivAtMost(a: nat, b: int)
    requires 0 < b
    ensures a / b <= a
  {
    var q := a / b;
    assert q * b + a % b == a;
    assert q <= q * b by { AtMostProduct(q, b); }
  }

  lemma AtMostProduct(q: nat, b: int)
    requires 0 < b
    ensures q <= q * b
  {
    assert q * b == q + q * (b - 1);
  }

  /** A positive long below 2^31 keeps its value; otherwise intValue wraps it. */
  lemma IntValueSmall(n: int)
    requires 0 < n <= INT_MAX
    ensures IntValue(n) == n
  {
    WrapInt(n);
  }

  /** 2^31, a positive long, narrows to the most negative int. */
  lemma IntValueOfTwoTo31()
    ensures IntValue(0x8000_0000) == INT_MIN
  {
  }

  /** 2^32 narrows to zero. */
  lemma IntValueOfTwoTo32()
    ensures IntValue(TWO_32) == 0
  {
  }
}
