/**
 * Reading a big-endian coefficient vector in a base: the value
 * `Σ d[j] * b^(|d| - 1 - j)` that every stage of the conversion preserves.
 * Coefficients may be any integers and the base may be negative.
 */
module Positional {
  import opened BigIntOps

  /** The value of coefficients `d`, most significant first, read in base `b`. */
  function Value(d: seq<int>, b: int): int
    decreases |d|
  {
    if |d| == 0 then 0 else d[0] * Pow(b, |d| - 1) + Value(d[1..], b)
  }

  /** `n` copies of `x`. */
  function Repeat(x: int, n: nat): (s: seq<int>)
    ensures |s| == n
    ensures forall k :: 0 <= k < n ==> s[k] == x
  {
    seq(n, _ => x)
  }

  /** `n` zero coefficients: the padding of popup.js:200 and the leading zeros of a numeral. */
  function Zeros(n: nat): seq<int>
  {
    Repeat(0, n)
  }

  /** Every coefficient is a digit of a base of magnitude `m`: it lies in `[0, m)`. */
  predicate InRange(d: seq<int>, m: int)
  {
    forall k :: 0 <= k < |d| ==> 0 <= d[k] < m
  }

  /** Digits of a base of magnitude `m` with no leading zero unless the number is 0. */
  predicate Canonical(d: seq<int>, m: int)
  {
    |d| >= 1 && InRange(d, m) && (|d| == 1 || d[0] != 0)
  }

  /** Coefficient-wise sum of two vectors of one length. */
  function Add(u: seq<int>, v: seq<int>): (w: seq<int>)
    requires |u| == |v|
    ensures |w| == |u|
    ensures forall k :: 0 <= k < |u| ==> w[k] == u[k] + v[k]
  {
    seq(|u|, k requires 0 <= k < |u| => u[k] + v[k])
  }

  /** Coefficient-wise product with a scalar. */
  function Scale(a: int, u: seq<int>): (w: seq<int>)
    ensures |w| == |u|
    ensures forall k :: 0 <= k < |u| ==> w[k] == a * u[k]
  {
    seq(|u|, k requires 0 <= k < |u| => a * u[k])
  }

  /** A coefficient put in front carries the weight `b^|d|`. */
  lemma ValueCons(x: int, d: seq<int>, b: int)
    ensures Value([x] + d, b) == x * Pow(b, |d|) + Value(d, b)
  {
    assert ([x] + d)[1..] == d;
  }

  /** Horner's rule: a coefficient appended at the end shifts the rest by one place. */
  lemma {:induction false} ValueSnoc(d: seq<int>, x: int, b: int)
    ensures Value(d + [x], b) == Value(d, b) * b + x
  {
    if |d| == 0 {
      assert Value([x], b) == x * Pow(b, 0) + Value([], b);
    } else {
      assert (d + [x])[1..] == d[1..] + [x];
      ValueSnoc(d[1..], x, b);
      var p := Pow(b, |d| - 1);
      var v := Value(d[1..], b);
      assert Pow(b, |d|) == b * p;
      assert Value(d + [x], b) == d[0] * (b * p) + (v * b + x);
      Associate(d[0], p, b);
      assert d[0] * (b * p) == (d[0] * p) * b;
      Distribute(b, d[0] * p, v);
    }
  }

  /** Horner's rule read backwards: the last coefficient split off. */
  lemma ValueInit(d: seq<int>, b: int)
    requires |d| >= 1
    ensures Value(d, b) == Value(d[..|d| - 1], b) * b + d[|d| - 1]
  {
    assert d == d[..|d| - 1] + [d[|d| - 1]];
    ValueSnoc(d[..|d| - 1], d[|d| - 1], b);
  }

  /** Leading zero coefficients do not change the value, in any base. */
  lemma {:induction false} ValueZerosPrefix(n: nat, d: seq<int>, b: int)
    ensures Value(Zeros(n) + d, b) == Value(d, b)
  {
    if n > 0 {
      var z := Zeros(n) + d;
      assert z[1..] == Zeros(n - 1) + d;
      assert z[0] == 0;
      ValueZerosPrefix(n - 1, d, b);
      assert Value(z, b) == 0 * Pow(b, |z| - 1) + Value(Zeros(n - 1) + d, b);
    } else {
      assert Zeros(0) + d == d;
    }
  }

  /** Changing the coefficient at `i` moves the value by the change times that position's weight. */
  lemma {:induction false} ValueUpdate(d: seq<int>, i: int, x: int, b: int)
    requires 0 <= i < |d|
    ensures Value(d[i := x], b) == Value(d, b) + (x - d[i]) * Pow(b, |d| - 1 - i)
  {
    if i == 0 {
      assert d[i := x][1..] == d[1..];
      Distribute(Pow(b, |d| - 1), x, -d[0]);
    } else {
      assert d[i := x][1..] == d[1..][i - 1 := x];
      ValueUpdate(d[1..], i - 1, x, b);
    }
  }

  /** The value is additive in the coefficients. */
  lemma {:induction false} ValueAdd(u: seq<int>, v: seq<int>, b: int)
    requires |u| == |v|
    ensures Value(Add(u, v), b) == Value(u, b) + Value(v, b)
  {
    if |u| > 0 {
      assert Add(u, v)[1..] == Add(u[1..], v[1..]);
      ValueAdd(u[1..], v[1..], b);
      Distribute(Pow(b, |u| - 1), u[0], v[0]);
    }
  }

  /** The value is homogeneous in the coefficients. */
  lemma {:induction false} ValueScale(a: int, u: seq<int>, b: int)
    ensures Value(Scale(a, u), b) == a * Value(u, b)
  {
    if |u| > 0 {
      assert Scale(a, u)[1..] == Scale(a, u[1..]);
      ValueScale(a, u[1..], b);
      calc {
        Value(Scale(a, u), b);
        (a * u[0]) * Pow(b, |u| - 1) + a * Value(u[1..], b);
        a * (u[0] * Pow(b, |u| - 1)) + a * Value(u[1..], b);
        { Distribute(a, u[0] * Pow(b, |u| - 1), Value(u[1..], b)); }
        a * Value(u, b);
      }
    }
  }

  /** In a positive base, digits in range give a value in `[0, b^|d|)`. */
  lemma {:induction false} ValueBounds(d: seq<int>, b: int)
    requires b >= 2
    requires InRange(d, b)
    ensures 0 <= Value(d, b) < Pow(b, |d|)
  {
    if |d| > 0 {
      ValueBounds(d[1..], b);
      var p := Pow(b, |d| - 1);
      MulMonotone(d[0], b - 1, p);
      MulMonotone(0, d[0], p);
      Distribute(p, b - 1, 1);
      assert Pow(b, |d|) == b * p;
    }
  }

  /**
   * In a positive base, when the digits after the first are in range and the
   * whole value is non-negative, the first coefficient is non-negative too.
   */
  lemma LeadingNonNegative(d: seq<int>, b: int)
    requires b >= 2
    requires |d| >= 1
    requires InRange(d[1..], b)
    requires Value(d, b) >= 0
    ensures d[0] >= 0
  {
    ValueBounds(d[1..], b);
    QuotientNonNegative(d[0], Pow(b, |d| - 1), Value(d[1..], b));
  }

  /** A quotient by a positive divisor is non-negative when the dividend and remainder are. */
  lemma QuotientNonNegative(q: int, p: int, r: int)
    requires p > 0 && 0 <= r < p
    requires q * p + r >= 0
    ensures q >= 0
  {
    if q < 0 {
      MulMonotone(q, -1, p);
    }
  }

  /** Digits in range with value zero are all zero, in any base of magnitude at least 2. */
  lemma {:induction false} ZeroValueDigits(d: seq<int>, b: int)
    requires Abs(b) >= 2
    requires InRange(d, Abs(b))
    requires Value(d, b) == 0
    ensures forall k :: 0 <= k < |d| ==> d[k] == 0
  {
    if |d| > 0 {
      var init := d[..|d| - 1];
      ValueInit(d, b);
      DivModUnique(b, Value(init, b), d[|d| - 1], 0, 0);
      ZeroValueDigits(init, b);
      assert forall k :: 0 <= k < |d| - 1 ==> d[k] == init[k];
    }
  }

  /**
   * Two digit vectors of one value agree in their last digit, and what
   * precedes it has one value too: the last digit is the value modulo `b`.
   */
  lemma LastDigitAgrees(d: seq<int>, e: seq<int>, b: int)
    requires Abs(b) >= 2
    requires |d| >= 1 && |e| >= 1
    requires 0 <= d[|d| - 1] < Abs(b) && 0 <= e[|e| - 1] < Abs(b)
    requires Value(d, b) == Value(e, b)
    ensures d[|d| - 1] == e[|e| - 1]
    ensures Value(d[..|d| - 1], b) == Value(e[..|e| - 1], b)
  {
    ValueInit(d, b);
    ValueInit(e, b);
    DivModUnique(b, Value(d[..|d| - 1], b), d[|d| - 1], Value(e[..|e| - 1], b), e[|e| - 1]);
  }

  /**
   * Positional representation with digits in `[0, |b|)` is unique up to
   * leading zeros, for positive and negative bases alike.
   */
  lemma {:induction false} RepresentationUnique(d: seq<int>, e: seq<int>, b: int)
    requires Abs(b) >= 2
    requires InRange(d, Abs(b)) && InRange(e, Abs(b))
    requires |d| <= |e|
    requires Value(d, b) == Value(e, b)
    ensures e == Zeros(|e| - |d|) + d
  {
    if |d| == 0 {
      ZeroValueDigits(e, b);
    } else {
      var di, ei := d[..|d| - 1], e[..|e| - 1];
      LastDigitAgrees(d, e, b);
      InRangeInit(d, Abs(b));
      InRangeInit(e, Abs(b));
      RepresentationUnique(di, ei, b);
      SnocAfterZeros(|e| - |d|, d, e);
    }
  }

  /** Dropping the last digit keeps the rest in range. */
  lemma InRangeInit(d: seq<int>, m: int)
    requires |d| >= 1 && InRange(d, m)
    ensures InRange(d[..|d| - 1], m)
  {
    assert forall k :: 0 <= k < |d| - 1 ==> d[..|d| - 1][k] == d[k];
  }

  /** If all but the last digits of `e` are zeros then all but the last of `d`, and the last agree, so is `e`. */
  lemma SnocAfterZeros(n: nat, d: seq<int>, e: seq<int>)
    requires |d| >= 1 && |e| == n + |d|
    requires e[..|e| - 1] == Zeros(n) + d[..|d| - 1]
    requires e[|e| - 1] == d[|d| - 1]
    ensures e == Zeros(n) + d
  {
    assert e == e[..|e| - 1] + [e[|e| - 1]];
    assert d == d[..|d| - 1] + [d[|d| - 1]];
  }

  /** A multiple of `t` smaller than `t` in magnitude is zero. */
  lemma SmallMultipleIsZero(k: int, t: int, c: int)
    requires t >= 2 && Abs(c) < t && k * t == c
    ensures k == 0 && c == 0
  {
    if k != 0 {
      MulMagnitude(k, t);
    }
  }

  /**
   * Coefficient vectors of one length that read the same in every base from 2
   * up are equal: a polynomial identity fixes its coefficients.
   */
  lemma {:induction false} ValuesDetermineCoefficients(u: seq<int>, v: seq<int>)
    requires |u| == |v|
    requires forall t :: t >= 2 ==> Value(u, t) == Value(v, t)
    ensures u == v
  {
    if |u| > 0 {
      var n := |u| - 1;
      var ui, vi := u[..n], v[..n];
      forall t | t >= 2
        ensures (Value(ui, t) - Value(vi, t)) * t == v[n] - u[n]
      {
        ValueInit(u, t);
        ValueInit(v, t);
        Distribute(t, Value(ui, t), -Value(vi, t));
      }
      var t0 := Abs(v[n] - u[n]) + 2;
      SmallMultipleIsZero(Value(ui, t0) - Value(vi, t0), t0, v[n] - u[n]);
      forall t | t >= 2
        ensures Value(ui, t) == Value(vi, t)
      {
        SmallMultipleIsZero(Value(ui, t) - Value(vi, t), t, 0);
      }
      ValuesDetermineCoefficients(ui, vi);
      assert u == ui + [u[n]];
      assert v == vi + [v[n]];
    }
  }

  /** Two canonical digit vectors with the same value in a base are the same vector. */
  lemma CanonicalUnique(d: seq<int>, e: seq<int>, b: int)
    requires Abs(b) >= 2
    requires Canonical(d, Abs(b)) && Canonical(e, Abs(b))
    requires Value(d, b) == Value(e, b)
    ensures d == e
  {
    if |d| <= |e| {
      RepresentationUnique(d, e, b);
    } else {
      RepresentationUnique(e, d, b);
    }
  }
}
