/**
 * The matrix part of popup.js: the Taylor-shift (Pascal) matrix, the diagonal
 * power matrix, and the exact integer product `matrixMultiply`. Matrices are
 * sequences of rows; a digit vector times a transform matrix gives the
 * coefficients of the same number in another base.
 */
module Matrices {
  import opened Wrappers
  import opened BigIntOps
  import opened Binomial
  import opened Positional

  type Matrix = seq<seq<int>>

  /** `m` has `rows` rows of `cols` entries each. */
  predicate Shape(m: Matrix, rows: int, cols: int)
  {
    |m| == rows && forall i :: 0 <= i < |m| ==> |m[i]| == cols
  }

  /** What `matrixMultiply` needs of an operand: a first row to read, and rows of one length. */
  predicate IsMatrix(m: Matrix)
  {
    |m| > 0 && Shape(m, |m|, |m[0]|)
  }

  /** The thrown "Matrix dimension mismatch". */
  datatype MatrixError = DimensionMismatch

  /** `Σ_k u[k] * v[k]`. */
  function Dot(u: seq<int>, v: seq<int>): int
    requires |u| == |v|
  {
    if |u| == 0 then 0 else u[0] * v[0] + Dot(u[1..], v[1..])
  }

  /** Column `j` of `m`. */
  function Column(m: Matrix, j: int): (c: seq<int>)
    requires 0 <= j
    requires forall k :: 0 <= k < |m| ==> j < |m[k]|
    ensures |c| == |m|
    ensures forall k :: 0 <= k < |m| ==> c[k] == m[k][j]
  {
    seq(|m|, k requires 0 <= k < |m| => m[k][j])
  }

  /** Row vector `d` times `m`, where `m` has `|d|` rows of `cols` entries. */
  function RowTimes(d: seq<int>, m: Matrix, cols: nat): (r: seq<int>)
    requires Shape(m, |d|, cols)
    ensures |r| == cols
  {
    seq(cols, j requires 0 <= j < cols => Dot(d, Column(m, j)))
  }

  /** The product of matrices: row `i` of `a` times `b`, for every `i`. */
  function Product(a: Matrix, b: Matrix): (p: Matrix)
    requires IsMatrix(a) && IsMatrix(b) && |a[0]| == |b|
    ensures Shape(p, |a|, |b[0]|)
  {
    seq(|a|, i requires 0 <= i < |a| => RowTimes(a[i], b, |b[0]|))
  }

  /** Accumulating left to right adds the next product at the end. */
  lemma {:induction false} DotSnoc(u: seq<int>, v: seq<int>, k: int)
    requires |u| == |v| && 0 <= k < |u|
    ensures Dot(u[..k + 1], v[..k + 1]) == Dot(u[..k], v[..k]) + u[k] * v[k]
  {
    if k > 0 {
      assert u[..k + 1][1..] == u[1..][..k];
      assert v[..k + 1][1..] == v[1..][..k];
      assert u[..k][1..] == u[1..][..k - 1];
      assert v[..k][1..] == v[1..][..k - 1];
      DotSnoc(u[1..], v[1..], k - 1);
    }
  }

  /**
   * popup.js `matrixMultiply`: the triple loop summing `a[i][k] * b[k][j]`;
   * it fails exactly when the columns of `a` do not match the rows of `b`.
   */
  method MatrixMultiply(a: Matrix, b: Matrix) returns (r: Result<Matrix, MatrixError>)
    requires IsMatrix(a) && IsMatrix(b)
    ensures r.Failure? <==> |a[0]| != |b|
    ensures r.Success? ==> Shape(r.value, |a|, |b[0]|)
    ensures r.Success? ==> forall i, j :: 0 <= i < |a| && 0 <= j < |b[0]| ==>
      r.value[i][j] == Dot(a[i], Column(b, j))
  {
    var rA, cA, rB, cB := |a|, |a[0]|, |b|, |b[0]|;
    if cA != rB {
      return Failure(DimensionMismatch);
    }
    var result: Matrix := [];
    var i := 0;
    while i < rA
      invariant 0 <= i <= rA
      invariant Shape(result, i, cB)
      invariant forall i', j :: 0 <= i' < i && 0 <= j < cB ==> result[i'][j] == Dot(a[i'], Column(b, j))
    {
      var row: seq<int> := [];
      var j := 0;
      while j < cB
        invariant 0 <= j <= cB
        invariant |row| == j
        invariant forall j' :: 0 <= j' < j ==> row[j'] == Dot(a[i], Column(b, j'))
      {
        var sum := 0;
        var k := 0;
        while k < cA
          invariant 0 <= k <= cA
          invariant sum == Dot(a[i][..k], Column(b, j)[..k])
        {
          DotSnoc(a[i], Column(b, j), k);
          sum := sum + a[i][k] * b[k][j];
          k := k + 1;
        }
        assert a[i][..cA] == a[i] && Column(b, j)[..cA] == Column(b, j);
        row := row + [sum];
        j := j + 1;
      }
      result := result + [row];
      i := i + 1;
    }
    return Success(result);
  }

  /** The method computes the reference product. */
  lemma MatrixMultiplyIsProduct(a: Matrix, b: Matrix, p: Matrix)
    requires IsMatrix(a) && IsMatrix(b) && |a[0]| == |b|
    requires Shape(p, |a|, |b[0]|)
    requires forall i, j :: 0 <= i < |a| && 0 <= j < |b[0]| ==> p[i][j] == Dot(a[i], Column(b, j))
    ensures p == Product(a, b)
  {
    forall i | 0 <= i < |a|
      ensures p[i] == Product(a, b)[i]
    {
    }
  }

  /** Row `r` of the Pascal matrix from column `r` on: `C(m, j) * e^j` for `j` in `0..m`. */
  function BinomialRow(m: nat, e: int): (row: seq<int>)
    ensures |row| == m + 1
  {
    seq(m + 1, j requires 0 <= j <= m => Choose(m, j) * Pow(e, j))
  }

  /**
   * popup.js `getPascalPower(size, exponent)`: entry `(r, c)` is
   * `combinations(size-1-r, c-r) * exponent^(c-r)` on and above the diagonal, 0 below.
   */
  function PascalPower(size: nat, e: int): (m: Matrix)
    ensures Shape(m, size, size)
    ensures forall r, c :: 0 <= c < r < size ==> m[r][c] == 0
    ensures forall r :: 0 <= r < size ==> m[r][r] == 1
  {
    var m := seq(size, r requires 0 <= r < size =>
      seq(size, c requires 0 <= c < size =>
        if c < r then 0 else Combinations(size - 1 - r, c - r) * Pow(e, c - r)));
    assert forall r :: 0 <= r < size ==> m[r][r] == Combinations(size - 1 - r, 0) * Pow(e, 0);
    m
  }

  /**
   * popup.js `getDiagonalMatrix(size, factor)`: `factor^(size-1-i)` at `(i, i)`,
   * 0 elsewhere.
   */
  function DiagonalMatrix(size: nat, f: int): (m: Matrix)
    ensures Shape(m, size, size)
    ensures forall r, c :: 0 <= r < size && 0 <= c < size && r != c ==> m[r][c] == 0
    ensures forall i :: 0 <= i < size ==> m[i][i] == Pow(f, size - 1 - i)
    ensures size > 0 ==> m[size - 1][size - 1] == 1
  {
    var m := seq(size, i requires 0 <= i < size =>
      seq(size, j requires 0 <= j < size => if i == j then Pow(f, size - 1 - i) else 0));
    assert size > 0 ==> m[size - 1][size - 1] == Pow(f, 0);
    m
  }

  /** The identity matrix. */
  function Identity(size: nat): (m: Matrix)
    ensures Shape(m, size, size)
  {
    seq(size, i requires 0 <= i < size => seq(size, j requires 0 <= j < size => if i == j then 1 else 0))
  }

  /** With offset 0 the Pascal matrix is the identity: converting to the same base changes nothing. */
  lemma PascalZeroIsIdentity(size: nat)
    ensures PascalPower(size, 0) == Identity(size)
  {
    forall r, c | 0 <= r < size && 0 <= c < size
      ensures PascalPower(size, 0)[r][c] == Identity(size)[r][c]
    {
      if c > r {
        assert Pow(0, c - r) == 0;
      }
    }
    forall r | 0 <= r < size
      ensures PascalPower(size, 0)[r] == Identity(size)[r]
    {
    }
  }

  /** Pascal's rule on binomial rows: row `m` is row `m-1` shifted left plus `e` times row `m-1`. */
  lemma BinomialRowStep(m: nat, e: int)
    requires m >= 1
    ensures BinomialRow(m, e) == Add(BinomialRow(m - 1, e) + [0], Scale(e, [0] + BinomialRow(m - 1, e)))
  {
    var u := BinomialRow(m - 1, e);
    var left := u + [0];
    var right := Scale(e, [0] + u);
    forall j | 0 <= j <= m
      ensures BinomialRow(m, e)[j] == Add(left, right)[j]
    {
      if j > 0 {
        var p := Pow(e, j - 1);
        var a := Choose(m - 1, j - 1);
        var c := Choose(m - 1, j);
        assert Pow(e, j) == e * p;
        assert right[j] == e * (a * p);
        assert e * (a * p) == a * Pow(e, j);
        if j == m {
          ChooseAbove(m - 1, m);
        }
        assert left[j] == c * Pow(e, j);
        assert Choose(m, j) == a + c;
        Distribute(Pow(e, j), a, c);
      }
    }
  }

  /** The two halves of Pascal's rule, read in base `t`: a shift left multiplies by `t`, the other scales by `e`. */
  lemma ShiftedRowValues(u: seq<int>, e: int, t: int)
    ensures Value(u + [0], t) == Value(u, t) * t
    ensures Value(Scale(e, [0] + u), t) == e * Value(u, t)
  {
    ValueSnoc(u, 0, t);
    ValueScale(e, [0] + u, t);
    ValueCons(0, u, t);
    assert 0 * Pow(t, |u|) == 0;
  }

  /** The binomial theorem: `Σ_j C(m, j) * e^j * t^(m-j) == (t + e)^m`. */
  lemma {:induction false} BinomialTheorem(m: nat, e: int, t: int)
    ensures Value(BinomialRow(m, e), t) == Pow(t + e, m)
  {
    if m == 0 {
      assert BinomialRow(0, e) == [1];
    } else {
      var u := BinomialRow(m - 1, e);
      BinomialRowStep(m, e);
      BinomialTheorem(m - 1, e, t);
      ValueAdd(u + [0], Scale(e, [0] + u), t);
      ShiftedRowValues(u, e, t);
      var v := Pow(t + e, m - 1);
      assert Value(BinomialRow(m, e), t) == v * t + e * v;
      Distribute(v, t, e);
    }
  }

  /** Row `r` of the Pascal matrix is `r` zeros then the binomial row of power `size-1-r`. */
  lemma PascalRowShape(size: nat, e: int, r: int)
    requires 0 <= r < size
    ensures PascalPower(size, e)[r] == Zeros(r) + BinomialRow(size - 1 - r, e)
  {
    var row := PascalPower(size, e)[r];
    forall c | 0 <= c < size
      ensures row[c] == (Zeros(r) + BinomialRow(size - 1 - r, e))[c]
    {
      var z := Zeros(r) + BinomialRow(size - 1 - r, e);
      if c >= r {
        assert z[c] == BinomialRow(size - 1 - r, e)[c - r];
        assert row[c] == Combinations(size - 1 - r, c - r) * Pow(e, c - r);
      } else {
        assert z[c] == Zeros(r)[c];
      }
    }
  }

  /** Row `r` of the Pascal matrix read in base `t` is `(t + e)^(size-1-r)`. */
  lemma PascalRowValue(size: nat, e: int, r: int, t: int)
    requires 0 <= r < size
    ensures Value(PascalPower(size, e)[r], t) == Pow(t + e, size - 1 - r)
  {
    PascalRowShape(size, e, r);
    ValueZerosPrefix(r, BinomialRow(size - 1 - r, e), t);
    BinomialTheorem(size - 1 - r, e, t);
  }

  /** Row `i` of the diagonal matrix read in base `t` is `(f * t)^(size-1-i)`. */
  lemma DiagonalRowValue(size: nat, f: int, i: int, t: int)
    requires 0 <= i < size
    ensures Value(DiagonalMatrix(size, f)[i], t) == Pow(f * t, size - 1 - i)
  {
    var m := size - 1 - i;
    var tail := [Pow(f, m)] + Zeros(m);
    assert DiagonalMatrix(size, f)[i] == Zeros(i) + tail;
    ValueZerosPrefix(i, tail, t);
    ValueCons(Pow(f, m), Zeros(m), t);
    assert Zeros(m) + [] == Zeros(m);
    ValueZerosPrefix(m, [], t);
    PowOfProduct(f, t, m);
  }

  /** The weights of the positions of a vector of length `n`: `b^(n-1-k)` at `k`. */
  function Weights(b: int, n: nat): (w: seq<int>)
    ensures |w| == n
  {
    seq(n, k requires 0 <= k < n => Pow(b, n - 1 - k))
  }

  /** The values of the rows of `m` read in base `t`. */
  function RowValues(m: Matrix, t: int): (v: seq<int>)
    ensures |v| == |m|
  {
    seq(|m|, k requires 0 <= k < |m| => Value(m[k], t))
  }

  /** Reading `d` in base `b` is pairing it with the position weights. */
  lemma {:induction false} DotWeights(d: seq<int>, b: int)
    ensures Dot(d, Weights(b, |d|)) == Value(d, b)
  {
    if |d| > 0 {
      assert Weights(b, |d|)[1..] == Weights(b, |d| - 1);
      DotWeights(d[1..], b);
    }
  }

  /**
   * Linearity: a row vector times `m`, read in base `t`, is the combination
   * of the values of the rows of `m` with the vector's entries.
   */
  lemma {:induction false} RowTimesValue(d: seq<int>, m: Matrix, cols: nat, t: int)
    requires Shape(m, |d|, cols)
    ensures Value(RowTimes(d, m, cols), t) == Dot(d, RowValues(m, t))
  {
    if |d| == 0 {
      assert RowTimes(d, m, cols) == Zeros(cols) + [];
      ValueZerosPrefix(cols, [], t);
    } else {
      var rest := RowTimes(d[1..], m[1..], cols);
      forall j | 0 <= j < cols
        ensures RowTimes(d, m, cols)[j] == Add(Scale(d[0], m[0]), rest)[j]
      {
        assert Column(m, j)[1..] == Column(m[1..], j);
      }
      assert RowTimes(d, m, cols) == Add(Scale(d[0], m[0]), rest);
      ValueAdd(Scale(d[0], m[0]), rest, t);
      ValueScale(d[0], m[0], t);
      RowTimesValue(d[1..], m[1..], cols, t);
      assert RowValues(m, t)[1..] == RowValues(m[1..], t);
    }
  }

  /**
   * The conversion theorem for one row: if row `k` of `m` reads in base `t` as
   * `b^(n-1-k)`, then `d` times `m` read in base `t` equals `d` read in base `b`.
   */
  lemma TransformPreservesValue(d: seq<int>, m: Matrix, cols: nat, t: int, b: int)
    requires Shape(m, |d|, cols)
    requires forall k :: 0 <= k < |m| ==> Value(m[k], t) == Pow(b, |m| - 1 - k)
    ensures Value(RowTimes(d, m, cols), t) == Value(d, b)
  {
    RowTimesValue(d, m, cols, t);
    assert RowValues(m, t) == Weights(b, |d|);
    DotWeights(d, b);
  }

  /** Taylor shift: `d` times the Pascal matrix of offset `e`, read in base `t`, is `d` read in base `t + e`. */
  lemma PascalConverts(d: seq<int>, e: int, t: int)
    ensures Value(RowTimes(d, PascalPower(|d|, e), |d|), t) == Value(d, t + e)
  {
    var m := PascalPower(|d|, e);
    forall k | 0 <= k < |m|
      ensures Value(m[k], t) == Pow(t + e, |m| - 1 - k)
    {
      PascalRowValue(|d|, e, k, t);
    }
    TransformPreservesValue(d, m, |d|, t, t + e);
  }

  /**
   * The offset method undone: converting with offset `e` and then with offset
   * `-e` gives back the vector, since reading in base `t` after the second
   * shift is reading in base `t - e + e`.
   */
  lemma PascalRoundTrip(d: seq<int>, e: int)
    ensures RowTimes(RowTimes(d, PascalPower(|d|, e), |d|), PascalPower(|d|, -e), |d|) == d
  {
    var w1 := RowTimes(d, PascalPower(|d|, e), |d|);
    var w := RowTimes(w1, PascalPower(|d|, -e), |d|);
    forall t | t >= 2
      ensures Value(w, t) == Value(d, t)
    {
      PascalConverts(w1, -e, t);
      PascalConverts(d, e, t + -e);
    }
    ValuesDetermineCoefficients(w, d);
  }

  /** The identity is the diagonal matrix of factor 1. */
  lemma IdentityIsDiagonal(size: nat)
    ensures Identity(size) == DiagonalMatrix(size, 1)
  {
    forall i | 0 <= i < size
      ensures Identity(size)[i] == DiagonalMatrix(size, 1)[i]
    {
    }
  }

  /** The Pascal matrices of offsets `e` and `-e` are inverse to each other. */
  lemma PascalInverse(size: nat, e: int)
    requires size > 0
    ensures Product(PascalPower(size, e), PascalPower(size, -e)) == Identity(size)
  {
    var p := PascalPower(size, e);
    var q := PascalPower(size, -e);
    IdentityIsDiagonal(size);
    forall r | 0 <= r < size
      ensures Product(p, q)[r] == Identity(size)[r]
    {
      var row := RowTimes(p[r], q, size);
      forall t | t >= 2
        ensures Value(row, t) == Value(Identity(size)[r], t)
      {
        PascalConverts(p[r], -e, t);
        PascalRowValue(size, e, r, t + -e);
        DiagonalRowValue(size, 1, r, t);
      }
      ValuesDetermineCoefficients(row, Identity(size)[r]);
    }
  }

  /** Substitution: `d` times the diagonal matrix of factor `f`, read in base `t`, is `d` read in base `f * t`. */
  lemma DiagonalConverts(d: seq<int>, f: int, t: int)
    ensures Value(RowTimes(d, DiagonalMatrix(|d|, f), |d|), t) == Value(d, f * t)
  {
    var m := DiagonalMatrix(|d|, f);
    forall k | 0 <= k < |m|
      ensures Value(m[k], t) == Pow(f * t, |m| - 1 - k)
    {
      DiagonalRowValue(|d|, f, k, t);
    }
    TransformPreservesValue(d, m, |d|, t, f * t);
  }
}
