/**
 * The BigInt operations of popup.js as mathematical integers: the absolute
 * value helper, the `**` power, and BigInt `/` and `%`, which truncate toward
 * zero (unlike Dafny's Euclidean `/` and `%`).
 */
module BigIntOps {

  /** popup.js `abs`. */
  function Abs(n: int): (r: int)
    ensures r >= 0 && (r == n || r == -n)
  {
    if n < 0 then -n else n
  }

  /**
   * BigInt `x ** n` for a non-negative exponent; `0 ** 0` is 1. Powers of a
   * positive base are positive, powers of 1 are 1, and powers of 0 vanish
   * except the empty one.
   */
  function Pow(x: int, n: nat): (p: int)
    ensures x > 0 ==> p > 0
    ensures x == 1 ==> p == 1
    ensures x == 0 ==> p == (if n == 0 then 1 else 0)
  {
    if n == 0 then 1 else x * Pow(x, n - 1)
  }

  /**
   * BigInt division `a / b`: the quotient rounded toward zero, so the
   * remainder `a - b * q` carries the sign of the dividend.
   */
  function TruncDiv(a: int, b: int): (q: int)
    requires b != 0
    ensures a >= 0 ==> 0 <= a - b * q < Abs(b)
    ensures a < 0 ==> -Abs(b) < a - b * q <= 0
  {
    if a >= 0 then
      if b > 0 then
        assert a == b * (a / b) + a % b;
        a / b
      else
        assert a == (-b) * (a / -b) + a % (-b);
        -(a / -b)
    else
      if b > 0 then
        assert -a == b * ((-a) / b) + (-a) % b;
        -((-a) / b)
      else
        assert -a == (-b) * ((-a) / (-b)) + (-a) % (-b);
        (-a) / (-b)
  }

  /** BigInt remainder `a % b`: it has the sign of `a` and magnitude below `|b|`. */
  function TruncRem(a: int, b: int): (r: int)
    requires b != 0
    ensures a == b * TruncDiv(a, b) + r
    ensures a >= 0 ==> 0 <= r < Abs(b)
    ensures a < 0 ==> -Abs(b) < r <= 0
  {
    a - b * TruncDiv(a, b)
  }

  /** Multiplication distributes over addition (stated once for the nonlinear steps). */
  lemma Distribute(x: int, y: int, z: int)
    ensures x * (y + z) == x * y + x * z
    ensures (y + z) * x == y * x + z * x
  {
  }

  /** Multiplication is associative (stated once for the nonlinear steps). */
  lemma Associate(x: int, y: int, z: int)
    ensures (x * y) * z == x * (y * z)
  {
  }

  /** Multiplying by a non-negative factor keeps the order. */
  lemma MulMonotone(x: int, y: int, p: int)
    requires x <= y && p >= 0
    ensures x * p <= y * p
  {
    assert y * p - x * p == (y - x) * p;
  }

  /** Quotient and remainder are unique once the remainder is confined to `[0, |b|)`. */
  lemma DivModUnique(b: int, q1: int, r1: int, q2: int, r2: int)
    requires b != 0
    requires q1 * b + r1 == q2 * b + r2
    requires 0 <= r1 < Abs(b) && 0 <= r2 < Abs(b)
    ensures q1 == q2 && r1 == r2
  {
    if q1 != q2 {
      var k := q1 - q2;
      assert k * b == r2 - r1;
      MulMagnitude(k, b);
      assert false;
    }
  }

  /** A non-zero multiple of `b` is at least `|b|` in magnitude. */
  lemma MulMagnitude(k: int, b: int)
    requires k != 0
    ensures Abs(k * b) >= Abs(b)
  {
    var m := Abs(k);
    var c := Abs(b);
    assert m >= 1;
    assert Abs(k * b) == m * c by {
      if k >= 0 && b >= 0 {
      } else if k >= 0 {
        assert k * b == -(k * (-b));
      } else if b >= 0 {
        assert k * b == -((-k) * b);
      } else {
        assert k * b == (-k) * (-b);
      }
    }
    assert m * c == c + (m - 1) * c;
    assert (m - 1) * c >= 0;
  }

  /** Truncating division is exact on multiples: `(c * b) / b == c`. */
  lemma TruncDivExact(a: int, b: int, c: int)
    requires b != 0
    requires a == c * b
    ensures TruncDiv(a, b) == c && TruncRem(a, b) == 0
  {
    var q := TruncDiv(a, b);
    var r := a - b * q;
    if a >= 0 {
      DivModUnique(b, q, r, c, 0);
    } else {
      DivModUnique(b, -q, -r, -c, 0);
    }
  }

  /** `TruncRem(a, b) == 0` exactly when `b` divides `a` in Dafny's Euclidean sense. */
  lemma TruncRemZeroIsDivisibility(a: int, b: int)
    requires b != 0
    ensures TruncRem(a, b) == 0 <==> a % b == 0
    ensures TruncRem(a, b) == 0 ==> a == TruncDiv(a, b) * b
  {
    if a % b == 0 {
      assert a == (a / b) * b;
      TruncDivExact(a, b, a / b);
    }
    if TruncRem(a, b) == 0 {
      var q := TruncDiv(a, b);
      assert a == q * b;
      DivModUnique(b, a / b, a % b, q, 0);
    }
  }

  /** Regrouping a product of four factors. */
  lemma Regroup(a: int, b: int, x: int, y: int)
    ensures (a * b) * (x * y) == (a * x) * (b * y)
  {
    Associate(a, b, x * y);
    Associate(b, x, y);
    Associate(a, x, b * y);
    assert b * x == x * b;
    Associate(x, b, y);
  }

  /** Powers of a product split: `(a * b)^n == a^n * b^n`. */
  lemma {:induction false} PowOfProduct(a: int, b: int, n: nat)
    ensures Pow(a * b, n) == Pow(a, n) * Pow(b, n)
  {
    if n > 0 {
      PowOfProduct(a, b, n - 1);
      var p, q := Pow(a, n - 1), Pow(b, n - 1);
      assert Pow(a * b, n) == (a * b) * (p * q);
      Regroup(a, b, p, q);
    }
  }
}
