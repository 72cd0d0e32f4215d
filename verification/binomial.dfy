/**
 * popup.js `combinations(n, k)`: a multiplicative loop over BigInts, checked
 * against the binomial coefficient defined by Pascal's rule.
 */
module Binomial {
  import opened BigIntOps

  /** The binomial coefficient by Pascal's rule: the reference definition. */
  function Choose(n: nat, k: nat): nat
  {
    if k == 0 then 1
    else if n == 0 then 0
    else Choose(n - 1, k - 1) + Choose(n - 1, k)
  }

  lemma {:induction false} ChooseAbove(n: nat, k: nat)
    requires k > n
    ensures Choose(n, k) == 0
  {
    if n > 0 {
      ChooseAbove(n - 1, k - 1);
      ChooseAbove(n - 1, k);
    }
  }

  lemma {:induction false} ChooseDiagonal(n: nat)
    ensures Choose(n, n) == 1
  {
    if n > 0 {
      ChooseDiagonal(n - 1);
      ChooseAbove(n - 1, n);
    }
  }

  /** Symmetry, which justifies the `k = n - k` shortcut at popup.js:25. */
  lemma {:induction false} ChooseSymmetric(n: nat, k: nat)
    requires k <= n
    ensures Choose(n, k) == Choose(n, n - k)
  {
    if k == 0 {
      ChooseDiagonal(n);
    } else if k == n {
      ChooseDiagonal(n);
    } else {
      ChooseSymmetric(n - 1, k - 1);
      ChooseSymmetric(n - 1, k);
      assert n - 1 - (k - 1) == n - k;
      assert n - 1 - k == n - k - 1;
    }
  }

  /**
   * The ratio of neighbouring coefficients, `i * C(n, i) == (n - i + 1) * C(n, i - 1)`,
   * which makes every division of the loop at popup.js:29-32 exact.
   */
  lemma {:induction false} ChooseStep(n: nat, i: nat)
    requires i >= 1
    ensures i * Choose(n, i) == (n - i + 1) * Choose(n, i - 1)
  {
    if n == 0 {
      if i > 1 {
        ChooseAbove(0, i - 1);
      }
    } else {
      ChooseStep(n - 1, i);
      var a := Choose(n - 1, i - 1);
      var c := Choose(n - 1, i);
      assert Choose(n, i) == a + c;
      assert i * c == (n - i) * a;
      calc {
        i * Choose(n, i);
        i * (a + c);
        { Distribute(i, a, c); }
        i * a + i * c;
        i * a + (n - i) * a;
        { Distribute(a, i, n - i); }
        n * a;
      }
      if i > 1 {
        ChooseStep(n - 1, i - 1);
        var b := Choose(n - 1, i - 2);
        assert (i - 1) * a == (n - i + 1) * b;
        assert Choose(n, i - 1) == b + a;
        calc {
          (n - i + 1) * Choose(n, i - 1);
          (n - i + 1) * (b + a);
          { Distribute(n - i + 1, b, a); }
          (n - i + 1) * b + (n - i + 1) * a;
          (i - 1) * a + (n - i + 1) * a;
          { Distribute(a, i - 1, n - i + 1); }
          n * a;
        }
      }
    }
  }

  /**
   * The loop of popup.js:29-32 from step `i` on: `res` already holds
   * `C(n, i - 1)` and each step multiplies by `n - i + 1` and divides by `i`.
   */
  function CombinationsLoop(n: nat, k: nat, i: nat, res: int): (r: int)
    requires 1 <= i <= k + 1 && k <= n
    requires res == Choose(n, i - 1)
    ensures r == Choose(n, k)
    decreases k + 1 - i
  {
    if i > k then res
    else
      ChooseStep(n, i);
      TruncDivExact(res * (n - i + 1), i, Choose(n, i));
      CombinationsLoop(n, k, i + 1, TruncDiv(res * (n - i + 1), i))
  }

  /**
   * popup.js `combinations`. `k > n / 2` there divides Numbers, so it is the
   * real comparison `2 * k > n`.
   */
  function Combinations(n: int, k: int): (r: int)
    ensures r == (if 0 <= k <= n then Choose(n, k) else 0)
  {
    if k < 0 || k > n then 0
    else if k == 0 || k == n then
      ChooseDiagonal(n);
      1
    else
      var k' := if 2 * k > n then n - k else k;
      ChooseSymmetric(n, k);
      CombinationsLoop(n, k', 1, 1)
  }

  /** The edge cases the source handles before its loop. */
  lemma CombinationsEdges(n: int, k: int)
    ensures k < 0 || k > n ==> Combinations(n, k) == 0
    ensures 0 <= n && (k == 0 || k == n) ==> Combinations(n, k) == 1
  {
    if 0 <= n {
      ChooseDiagonal(n);
    }
  }

  /** Symmetry of the function as computed: `combinations(n, k) == combinations(n, n - k)`. */
  lemma CombinationsSymmetric(n: int, k: int)
    ensures Combinations(n, k) == Combinations(n, n - k)
  {
    if 0 <= k <= n {
      ChooseSymmetric(n, k);
    }
  }
}
