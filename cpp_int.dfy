/** C++ integer division and remainder, and the truncating double-to-int
    conversion, written over Dafny's unbounded (Euclidean) integers.
    The divisors the window uses are the literal 2 and the scale divider.
    Only a positive divisor is modelled: a divider of 0 makes the C++ code
    divide by zero, which has no defined result. */
module CppInt {

  /** C++ `a / b` on int: the quotient truncated toward zero. */
  function TruncDiv(a: int, b: int): (q: int)
    requires b > 0
    ensures a >= 0 ==> 0 <= q * b <= a < q * b + b
    ensures a < 0 ==> q * b - b < a <= q * b <= 0
  {
    if a >= 0 then
      DivBounds(a, b);
      a / b
    else
      var m := (-a) / b;
      DivBounds(-a, b);
      NegateProduct(m, b);
      -m
  }

  /** Euclidean division of a non-negative number brackets it between two
      consecutive multiples of the divisor. */
  lemma DivBounds(a: int, b: int)
    requires a >= 0 && b > 0
    ensures 0 <= (a / b) * b <= a < (a / b) * b + b
  {
    assert a == (a / b) * b + a % b;
  }

  lemma NegateProduct(m: int, b: int)
    ensures (-m) * b == -(m * b)
  {
  }

  /** C++ `a % b` on int: the remainder takes the sign of the dividend. */
  function TruncRem(a: int, b: int): (r: int)
    requires b > 0
    ensures a >= 0 ==> 0 <= r < b
    ensures a < 0 ==> -b < r <= 0
    ensures (a - r) % b == 0
  {
    var q := TruncDiv(a, b);
    MultipleMod(q, b);
    a - q * b
  }

  /** A multiple of `b` leaves no Euclidean remainder. */
  lemma MultipleMod(k: int, b: int)
    requires b > 0
    ensures (k * b) % b == 0
  {
    var m := k * b;
    var q, r := m / b, m % b;
    assert m == q * b + r && 0 <= r < b;
    assert (k - q) * b == r;
    OnlyZeroIsSmallMultiple(k - q, b);
  }

  /** The only multiple of `b` strictly between `-b` and `b` is zero. */
  lemma OnlyZeroIsSmallMultiple(x: int, b: int)
    requires b > 0
    ensures -b < x * b < b ==> x == 0
  {
    assert x >= 1 ==> (x - 1) * b >= 0;
    assert x <= -1 ==> (-1 - x) * b >= 0;
  }

  /** An exact multiple of `b` is divided without any truncation, on
      either side of zero. */
  lemma {:induction false} TruncDivExactMultiple(k: int, b: int)
    requires b > 0
    ensures TruncDiv(k * b, b) == k
  {
    var q := TruncDiv(k * b, b);
    if k * b >= 0 {
      assert q * b <= k * b < q * b + b;
      assert 0 <= (k - q) * b < b;
      OnlyZeroIsSmallMultiple(k - q, b);
    } else {
      assert q * b - b < k * b <= q * b;
      assert 0 <= (q - k) * b < b;
      OnlyZeroIsSmallMultiple(q - k, b);
    }
  }
}
