/**
 * popup.js `normalize(coeffs, base)`: a right-to-left carry sweep that turns
 * arbitrary integer coefficients into digits in `[0, |base|)` of the same
 * value, growing the vector at the front when a carry leaves the leading
 * position, then renders the digits without leading zeros.
 */
module Normalization {
  import opened BigIntOps
  import opened Positional
  import opened Digits

  /** The BigInt remainder `v % base` moved into `[0, |base|)` (popup.js:281-286). */
  function ForcedRemainder(v: int, base: int): (r: int)
    requires base != 0
    ensures 0 <= r < Abs(base)
    ensures (v - r) % base == 0
  {
    var r0 := TruncRem(v, base);
    var r := if r0 < 0 then r0 + Abs(base) else r0;
    RemainderLeavesMultiple(v, base);
    TruncRemZeroIsDivisibility(v - r, base);
    TruncDivExact(v - r, base, ExactQuotient(v, base));
    r
  }

  /** `(v - ForcedRemainder(v, base)) / base`, written with the truncating quotient of `v`. */
  function ExactQuotient(v: int, base: int): int
    requires base != 0
  {
    var q0 := TruncDiv(v, base);
    if TruncRem(v, base) >= 0 then q0 else if base > 0 then q0 - 1 else q0 + 1
  }

  lemma RemainderLeavesMultiple(v: int, base: int)
    requires base != 0
    ensures var r0 := TruncRem(v, base);
      v - (if r0 < 0 then r0 + Abs(base) else r0) == ExactQuotient(v, base) * base
  {
    var q0 := TruncDiv(v, base);
    var r0 := TruncRem(v, base);
    assert v == q0 * base + r0;
    if r0 < 0 {
      if base > 0 {
        Distribute(base, q0, -1);
      } else {
        Distribute(base, q0, 1);
      }
    }
  }

  /**
   * One carry step (popup.js:278-289): the forced remainder stays as the digit;
   * the exact quotient `(v - r) / base` moves left as carry.
   */
  function Carry(v: int, base: int): (rq: (int, int))
    requires base != 0
    ensures 0 <= rq.0 < Abs(base)
    ensures rq.1 * base + rq.0 == v
  {
    var r := ForcedRemainder(v, base);
    RemainderLeavesMultiple(v, base);
    TruncDivExact(v - r, base, ExactQuotient(v, base));
    (r, TruncDiv(v - r, base))
  }

  /** The corrected truncating step is Euclidean division, for either sign of the base. */
  lemma CarryIsEuclidean(v: int, base: int)
    requires base != 0
    ensures Carry(v, base) == (v % base, v / base)
  {
    var (r, q) := Carry(v, base);
    DivModUnique(base, q, r, v / base, v % base);
  }

  /** A digit already in range is kept and carries nothing. */
  lemma CarryOfDigit(v: int, base: int)
    requires base != 0
    ensures 0 <= v < Abs(base) <==> Carry(v, base) == (v, 0)
  {
    var (r, q) := Carry(v, base);
    if 0 <= v < Abs(base) {
      DivModUnique(base, q, r, 0, v);
    }
  }

  /** The termination measure of the leading-digit phase: `2|v|`, plus 1 when `v < 0`. */
  function Measure(v: int): nat
  {
    if v < 0 then -2 * v + 1 else 2 * v
  }

  /**
   * A non-zero carry out of the leading position is smaller in measure than
   * the coefficient it came from, provided a positive base sees no negative
   * coefficient there.
   */
  lemma CarryShrinks(v: int, base: int)
    requires Abs(base) >= 2
    requires base > 0 ==> v >= 0
    requires Carry(v, base).1 != 0
    ensures Measure(Carry(v, base).1) < Measure(v)
  {
    var (r, q) := Carry(v, base);
    if base > 0 {
      ShrinksPositiveBase(v, base, r, q);
    } else if v >= 0 {
      ShrinksNegativeBase(v, -base, r, -q);
    } else {
      ShrinksNegativeValue(v, -base, r, q);
    }
  }

  /** Base `b > 0`, `v == q * b + r >= 0`: the carry is positive and below `v`. */
  lemma ShrinksPositiveBase(v: int, b: int, r: int, q: int)
    requires b >= 2 && 0 <= r < b && q * b + r == v && v >= 0 && q != 0
    ensures 0 < q < v
  {
    if q < 0 {
      MulMonotone(q, -1, b);
    }
    MulMonotone(2, b, q);
  }

  /** Base `-m`, `v >= 0`: the carry is `-p` with `2p + 1 < 2v`. */
  lemma ShrinksNegativeBase(v: int, m: int, r: int, p: int)
    requires m >= 2 && 0 <= r < m && p * m + r == v && v >= 0 && p != 0
    ensures 0 < p && 2 * p + 1 < 2 * v
  {
    if p < 0 {
      MulMonotone(p, -1, m);
    }
    MulMonotone(2, m, p);
  }

  /** Base `-m`, `v < 0`: the carry `q` satisfies `q * m == r - v`, so `0 < 2q < 1 - 2v`. */
  lemma ShrinksNegativeValue(v: int, m: int, r: int, q: int)
    requires m >= 2 && 0 <= r < m && q * (-m) + r == v && v < 0
    ensures 0 < q && 2 * q < 1 - 2 * v
  {
    assert q * m == r - v;
    if q <= 0 {
      MulMonotone(q, 0, m);
    }
    MulMonotone(2, m, q - 1);
    Distribute(m, q, -1);
  }

  /** Weighted, the digit given up at a position is exactly the carry one place up. */
  lemma CarryBalance(v: int, r: int, q: int, base: int, w: int)
    requires q * base + r == v
    ensures q * (base * w) + r * w == v * w
  {
    Distribute(w, q * base, r);
    Associate(q, base, w);
  }

  /** The loss at a position, weighted, cancels the carry's gain one place up. */
  lemma CarryCancels(v: int, r: int, q: int, base: int, w: int)
    requires q * base + r == v
    ensures (r - v) * w + q * (base * w) == 0
  {
    CarryBalance(v, r, q, base, w);
    Distribute(w, r, -v);
  }

  /** A carry `q` into the next more significant position, leaving `r`, keeps the value. */
  lemma ValueAfterCarry(arr: seq<int>, i: int, base: int, r: int, q: int)
    requires 0 < i < |arr|
    requires q * base + r == arr[i]
    ensures Value(arr[i := r][i - 1 := arr[i - 1] + q], base) == Value(arr, base)
  {
    var w := Pow(base, |arr| - 1 - i);
    var arr1 := arr[i := r];
    ValueUpdate(arr, i, r, base);
    ValueUpdate(arr1, i - 1, arr1[i - 1] + q, base);
    assert Pow(base, |arr| - 1 - (i - 1)) == base * w;
    assert arr1[i - 1] + q - arr1[i - 1] == q;
    CarryCancels(arr[i], r, q, base, w);
  }

  /** A carry `q` out of the leading position, inserted in front, keeps the value. */
  lemma ValueAfterGrow(arr: seq<int>, base: int, r: int, q: int)
    requires 0 < |arr|
    requires q * base + r == arr[0]
    ensures Value([q] + arr[0 := r], base) == Value(arr, base)
  {
    var n := |arr|;
    var w := Pow(base, n - 1);
    var arr1 := arr[0 := r];
    var tail := Value(arr[1..], base);
    assert Value([q] + arr1, base) == q * (base * w) + (r * w + tail) by {
      assert arr1[1..] == arr[1..];
      ValueCons(q, arr1, base);
      assert Pow(base, n) == base * w;
    }
    assert Value(arr, base) == arr[0] * w + tail;
    CarryBalance(arr[0], r, q, base, w);
  }

  /**
   * One pass of the loop body at popup.js:278-303, followed by the loop's
   * `i--`: the coefficient at `i` keeps its forced remainder, a non-zero carry
   * moves into position `i - 1`, or, out of position 0, is inserted in front
   * and position 0 is visited again. The result is the next array and index.
   */
  function SweepStep(arr: seq<int>, i: int, base: int): (next: (seq<int>, int))
    requires base != 0
    requires 0 <= i < |arr|
    ensures -1 <= next.1 < |next.0|
    ensures (next.1 == i - 1 && |next.0| == |arr|) ||
            (i == 0 && next.1 == 0 && |next.0| == |arr| + 1 && next.0[0] == Carry(arr[0], base).1)
  {
    var rq := Carry(arr[i], base);
    var r, q := rq.0, rq.1;
    if q != 0 then
      if i > 0 then (arr[i := r][i - 1 := arr[i - 1] + q], i - 1)
      else ([q] + arr[0 := r], 0)
    else (arr[i := r], i - 1)
  }

  /**
   * What one step keeps: the value of the coefficients, the digits already
   * settled to the right of the index, and an array that is already digits.
   * The index stays put only after a non-zero carry out of position 0.
   */
  lemma SweepStepPreserves(arr: seq<int>, i: int, base: int)
    requires base != 0
    requires 0 <= i < |arr|
    ensures Value(SweepStep(arr, i, base).0, base) == Value(arr, base)
    ensures InRange(arr[i + 1..], Abs(base)) ==>
      InRange(SweepStep(arr, i, base).0[SweepStep(arr, i, base).1 + 1..], Abs(base))
    ensures SweepStep(arr, i, base).1 == i ==> Carry(arr[0], base).1 != 0
    ensures 0 <= arr[i] < Abs(base) <==> SweepStep(arr, i, base) == (arr, i - 1)
  {
    var next := SweepStep(arr, i, base);
    var (r, q) := Carry(arr[i], base);
    CarryOfDigit(arr[i], base);
    if q != 0 {
      if i > 0 {
        ValueAfterCarry(arr, i, base, r, q);
        assert next.0[i..] == [r] + arr[i + 1..];
      } else {
        ValueAfterGrow(arr, base, r, q);
        assert next.0[1..] == [r] + arr[1..];
      }
    } else {
      assert arr[i := r] == arr;
    }
  }

  /** The loop invariant of the carry sweep over `coeffs`, at array `arr` and index `i`. */
  predicate SweepInvariant(coeffs: seq<int>, base: int, arr: seq<int>, i: int)
    requires base != 0
  {
    -1 <= i < |arr| &&
    |arr| >= |coeffs| &&
    Value(arr, base) == Value(coeffs, base) &&
    InRange(arr[i + 1..], Abs(base)) &&
    (InRange(coeffs, Abs(base)) ==> arr == coeffs)
  }

  /**
   * One step keeps the invariant and makes progress: the index falls, or it
   * stays at 0 and the leading coefficient shrinks in measure.
   */
  lemma SweepAdvances(coeffs: seq<int>, base: int, arr: seq<int>, i: int)
    requires Abs(base) >= 2
    requires base < 0 || Value(coeffs, base) >= 0
    requires SweepInvariant(coeffs, base, arr, i) && i >= 0
    ensures SweepInvariant(coeffs, base, SweepStep(arr, i, base).0, SweepStep(arr, i, base).1)
    ensures SweepStep(arr, i, base).1 < i ||
      (SweepStep(arr, i, base).1 == i == 0 && Measure(SweepStep(arr, i, base).0[0]) < Measure(arr[0]))
  {
    var next := SweepStep(arr, i, base);
    SweepStepPreserves(arr, i, base);
    if next.1 == i {
      if base > 0 {
        LeadingNonNegative(arr, base);
      }
      CarryShrinks(arr[0], base);
    }
    if InRange(coeffs, Abs(base)) {
      assert 0 <= arr[i] < Abs(base);
    }
  }

  /**
   * The carry sweep of popup.js:275-304. It runs from the last position to
   * the first; a carry out of position 0 is inserted as a new leading
   * coefficient and position 0 is visited again (the `i++` at line 299).
   */
  method CarrySweep(coeffs: seq<int>, base: int) returns (arr: seq<int>)
    requires Abs(base) >= 2
    requires base < 0 || Value(coeffs, base) >= 0
    ensures |arr| >= |coeffs|
    ensures InRange(arr, Abs(base))
    ensures Value(arr, base) == Value(coeffs, base)
    ensures InRange(coeffs, Abs(base)) ==> arr == coeffs
  {
    arr := coeffs;
    var i := |arr| - 1;
    while i >= 0
      invariant SweepInvariant(coeffs, base, arr, i)
      decreases i + 1, if i >= 0 then Measure(arr[i]) else 0
    {
      SweepAdvances(coeffs, base, arr, i);
      var next := SweepStep(arr, i, base);
      arr, i := next.0, next.1;
    }
    assert arr[0..] == arr;
  }

  /**
   * The loop of popup.js:277-304 as written, with no condition on the value,
   * run for at most `fuel` passes: the state reached, or the final state once
   * the index has left the array.
   */
  function Run(arr: seq<int>, i: int, base: int, fuel: nat): (state: (seq<int>, int))
    requires base != 0
    requires -1 <= i < |arr|
    ensures -1 <= state.1 < |state.0|
    ensures Value(state.0, base) == Value(arr, base)
    decreases fuel
  {
    if fuel == 0 || i < 0 then (arr, i)
    else
      var next := SweepStep(arr, i, base);
      SweepStepPreserves(arr, i, base);
      Run(next.0, next.1, base, fuel - 1)
  }

  /** In a positive base `b`, -1 leaves the digit `b - 1` and carries -1. */
  lemma CarryOfMinusOne(b: int)
    requires b >= 2
    ensures Carry(-1, b) == (b - 1, -1)
  {
    var (r, q) := Carry(-1, b);
    DivModUnique(b, q, r, -1, b - 1);
  }

  /**
   * In a positive base, a leading -1 is never settled: every pass at
   * position 0 writes `b - 1` there, inserts the carry -1 in front and
   * revisits position 0, so the index never leaves the array however many
   * passes are run.
   */
  lemma {:induction false} NegativeLeadNeverFinishes(rest: seq<int>, b: int, fuel: nat)
    requires b >= 2
    ensures Run([-1] + rest, 0, b, fuel) == ([-1] + Repeat(b - 1, fuel) + rest, 0)
    decreases fuel
  {
    if fuel > 0 {
      CarryOfMinusOne(b);
      assert ([-1] + rest)[0 := b - 1] == [b - 1] + rest;
      assert SweepStep([-1] + rest, 0, b) == ([-1] + ([b - 1] + rest), 0);
      NegativeLeadNeverFinishes([b - 1] + rest, b, fuel - 1);
      assert [-1] + Repeat(b - 1, fuel - 1) + ([b - 1] + rest) == [-1] + Repeat(b - 1, fuel) + rest;
    } else {
      assert [-1] + Repeat(b - 1, 0) + rest == [-1] + rest;
    }
  }

  /**
   * In a positive base the loop as written cannot leave the array while the
   * value is negative: the digits settled right of the index are in range, so
   * if every position were settled the value would be non-negative.
   */
  lemma {:induction false} NegativeValueKeepsRunning(arr: seq<int>, i: int, b: int, fuel: nat)
    requires b >= 2
    requires -1 <= i < |arr|
    requires InRange(arr[i + 1..], b)
    requires Value(arr, b) < 0
    ensures Run(arr, i, b, fuel).1 >= 0
    decreases fuel
  {
    if i == -1 {
      assert arr[i + 1..] == arr;
      ValueBounds(arr, b);
      assert false;
    } else if fuel > 0 {
      SweepStepPreserves(arr, i, b);
      var next := SweepStep(arr, i, b);
      NegativeValueKeepsRunning(next.0, next.1, b, fuel - 1);
    }
  }

  /**
   * `normalize` as written never finishes on a negative value in a positive
   * base: from the loop's start, no number of passes takes the index below 0.
   */
  lemma NegativeValueNeverFinishes(coeffs: seq<int>, b: int, fuel: nat)
    requires b >= 2
    requires Value(coeffs, b) < 0
    ensures Run(coeffs, |coeffs| - 1, b, fuel).1 >= 0
  {
    assert coeffs[|coeffs|..] == [];
    NegativeValueKeepsRunning(coeffs, |coeffs| - 1, b, fuel);
  }

  /**
   * The rendering of popup.js:306-313: skip leading zero digits but keep the
   * last digit, then write each remaining digit as its symbol.
   */
  method TrimmedString(arr: seq<int>) returns (s: string)
    ensures |arr| == 0 <==> s == ""
    ensures |s| <= |arr|
    ensures InRange(arr, Radix) ==> arr == Zeros(|arr| - |s|) + Decode(s)
    ensures InRange(arr, Radix) && |arr| > 0 ==> Canonical(Decode(s), Radix)
  {
    var start := 0;
    while start < |arr| - 1 && arr[start] == 0
      invariant 0 <= start <= |arr|
      invariant |arr| > 0 ==> start <= |arr| - 1
      invariant forall k :: 0 <= k < start ==> arr[k] == 0
    {
      start := start + 1;
    }
    var kept := arr[start..];
    assert arr == Zeros(start) + kept;
    s := Render(kept);
    if InRange(arr, Radix) {
      DecodeRender(kept);
    }
  }

  /**
   * popup.js `normalize`: the carry sweep, then the digits rendered without
   * leading zeros. For a base of magnitude at most 62 the string decodes to
   * the canonical digits of the input's value.
   */
  method Normalize(coeffs: seq<int>, base: int) returns (result: seq<int>, resultString: string)
    requires Abs(base) >= 2
    requires base < 0 || Value(coeffs, base) >= 0
    ensures |result| >= |coeffs|
    ensures InRange(result, Abs(base))
    ensures Value(result, base) == Value(coeffs, base)
    ensures InRange(coeffs, Abs(base)) ==> result == coeffs
    ensures |coeffs| == 0 ==> resultString == ""
    ensures Abs(base) <= Radix ==>
      |resultString| <= |result| && result == Zeros(|result| - |resultString|) + Decode(resultString)
    ensures Abs(base) <= Radix && |coeffs| > 0 ==>
      Canonical(Decode(resultString), Abs(base)) &&
      Value(Decode(resultString), base) == Value(coeffs, base)
  {
    result := CarrySweep(coeffs, base);
    resultString := TrimmedString(result);
    if Abs(base) <= Radix {
      assert InRange(result, Radix);
      TrimmedDigits(result, resultString, base);
    }
  }

  /**
   * The digits left after trimming, in a base of magnitude at most 62: in
   * range for the base, canonical, with the value of the whole array.
   */
  lemma TrimmedDigits(arr: seq<int>, s: string, base: int)
    requires Abs(base) <= Radix
    requires InRange(arr, Abs(base))
    requires |s| <= |arr| && arr == Zeros(|arr| - |s|) + Decode(s)
    requires |arr| > 0 ==> Canonical(Decode(s), Radix)
    ensures |arr| > 0 ==> Canonical(Decode(s), Abs(base))
    ensures Value(Decode(s), base) == Value(arr, base)
  {
    var kept := Decode(s);
    var n := |arr| - |s|;
    ValueZerosPrefix(n, kept, base);
    assert InRange(kept, Abs(base)) by {
      assert forall k :: 0 <= k < |kept| ==> kept[k] == arr[n + k];
    }
  }
}
