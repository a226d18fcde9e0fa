/** Small building blocks shared by the metrics modules: an optional value
    (Java's nullable reference), the runtime exceptions the modelled code can
    raise, and Java's truncating integer division. */
module Common {

  datatype Option<+T> = None | Some(value: T)

  /** The unchecked Java exceptions that the modelled code can raise. */
  datatype JavaException = NullPointer | ClassCast | IndexOutOfBounds

  /** Java's `long` division `a / b` for a positive divisor: the quotient is
      truncated toward zero, so it has the sign of `a`, is no larger than `a`
      in magnitude, and is zero exactly when `a` is smaller than `b` in
      magnitude (a floored quotient would give -1 for a small negative `a`). */
  function TruncDiv(a: int, b: int): (q: int)
    requires b > 0
    ensures a >= 0 ==> 0 <= q <= a
    ensures a <= 0 ==> a <= q <= 0
    ensures q == 0 <==> -b < a < b
  {
    if a >= 0 then NatDivBounds(a, b); a / b
    else NatDivBounds(-a, b); -((-a) / b)
  }

  /** Euclidean division of a non-negative dividend: the quotient lies
      between 0 and the dividend, and is 0 exactly below the divisor. */
  lemma NatDivBounds(n: int, b: int)
    requires n >= 0 && b > 0
    ensures 0 <= n / b <= n
    ensures n / b == 0 <==> n < b
  {
    var q, r := n / b, n % b;
    assert n == b * q + r;
    MulSign(b, q);
    if q >= 1 {
      MulSign(b, q - 1);
      assert b * q == b * (q - 1) + b;
    }
  }

  /** The quotient rounds toward zero: the remainder `a - q * b` is smaller
      than `b` in magnitude and never has the opposite sign to `a`. */
  lemma TruncDivRemainder(a: int, b: int)
    requires b > 0
    ensures a >= 0 ==> 0 <= a - TruncDiv(a, b) * b < b
    ensures a < 0 ==> -b < a - TruncDiv(a, b) * b <= 0
  {
  }

  lemma MulNonNegative(a: int, b: int)
    requires a >= 0 && b >= 0
    ensures a * b >= 0
  {
  }

  /** A non-zero multiple of a positive `d` is at least `d` away from zero. */
  lemma MulSign(d: int, x: int)
    requires d > 0
    ensures x >= 1 ==> d * x >= d
    ensures x <= -1 ==> d * x <= -d
  {
    if x >= 1 {
      MulNonNegative(d, x - 1);
      assert d * x == d * (x - 1) + d;
    } else if x <= -1 {
      MulNonNegative(d, -x - 1);
      assert d * x == -(d * (-x - 1)) - d;
    }
  }

  /** Euclidean division is determined by quotient and remainder. */
  lemma DivUnique(a: int, d: int, q: int, r: int)
    requires d > 0 && 0 <= r < d && a == d * q + r
    ensures a / d == q
  {
    var q0, r0 := a / d, a % d;
    assert a == d * q0 + r0;
    assert d * (q - q0) == d * q - d * q0;
    MulSign(d, q - q0);
  }

  /** For a non-negative dividend, `(n / b) / c == n / (b * c)`. */
  lemma NatDivChain(n: int, b: int, c: int)
    requires n >= 0 && b > 0 && c > 0
    ensures (n / b) / c == n / (b * c)
  {
    var q1, r1 := n / b, n % b;
    var q2, r2 := q1 / c, q1 % c;
    assert n == b * q1 + r1;
    assert q1 == c * q2 + r2;
    assert b * q1 == b * (c * q2) + b * r2;
    assert b * (c * q2) == (b * c) * q2;
    MulNonNegative(b, c - 1 - r2);
    assert b * (c - 1 - r2) == b * c - b - b * r2;
    MulNonNegative(b, r2);
    DivUnique(n, b * c, q2, b * r2 + r1);
  }

  /** Dividing twice by positive divisors, truncating each time, is the
      same as truncating once by their product. */
  lemma {:induction false} TruncDivChain(a: int, b: int, c: int)
    requires b > 0 && c > 0
    ensures TruncDiv(TruncDiv(a, b), c) == TruncDiv(a, b * c)
  {
    assert b * c > 0 by { MulSign(b, c); }
    if a >= 0 {
      NatDivChain(a, b, c);
      assert TruncDiv(a, b) == a / b by { assert a / b >= 0; }
    } else {
      NatDivChain(-a, b, c);
      assert TruncDiv(a, b) == -((-a) / b) by { assert (-a) / b >= 0; }
    }
  }
}
