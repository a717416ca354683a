/**
 * Completion percentages: `Math.round((k / n) * 100)` computed in exact integers.
 * `Math.round` rounds to the nearest integer and sends halves up; for k, n >= 0 the
 * exact value is (200k + n) div 2n.  When n is 0, JavaScript's division gives NaN
 * (0 / 0) or Infinity (k / 0 with k > 0), and `Math.round` keeps them.
 */
module Percent {

  /** A number as JavaScript computes it: a finite integer, NaN or +Infinity. */
  datatype JsNumber = Finite(value: int) | NaN | Infinity

  /** 100k/n rounded to the nearest integer, halves up. */
  function RoundPercent(k: nat, n: nat): (r: nat)
    requires n > 0
    ensures n * (2 * r - 1) <= 200 * k < n * (2 * r + 1)
  {
    var q := (200 * k + n) / (2 * n);
    assert 2 * n * q <= 200 * k + n < 2 * n * q + 2 * n;
    assert n * (2 * q - 1) == 2 * n * q - n && n * (2 * q + 1) == 2 * n * q + n;
    q
  }

  /** `Math.round((k / n) * 100)`, including the division by zero. */
  function JsRoundPercent(k: nat, n: nat): (r: JsNumber)
    ensures n == 0 ==> (r == NaN <==> k == 0) && (r == Infinity <==> k > 0)
    ensures n > 0 ==> r.Finite? && n * (2 * r.value - 1) <= 200 * k < n * (2 * r.value + 1)
  {
    if n == 0 then (if k == 0 then NaN else Infinity)
    else Finite(RoundPercent(k, n))
  }

  /** The rounding bounds determine the percentage: nothing else satisfies them. */
  lemma RoundPercentUnique(k: nat, n: nat, r: int)
    requires n > 0
    requires n * (2 * r - 1) <= 200 * k < n * (2 * r + 1)
    ensures r == RoundPercent(k, n)
  {
    BoundsDetermine(k, n, r, RoundPercent(k, n));
  }

  /** Two integers within the same rounding bounds are equal. */
  lemma BoundsDetermine(k: nat, n: nat, r: int, q: int)
    requires n > 0
    requires n * (2 * r - 1) <= 200 * k < n * (2 * r + 1)
    requires n * (2 * q - 1) <= 200 * k < n * (2 * q + 1)
    ensures r == q
  {
    Distribute(n, r);
    Distribute(n, q);
    if r < q {
      MulMonotone(n, r + 1, q);
    } else if r > q {
      MulMonotone(n, q + 1, r);
    }
  }

  lemma Distribute(n: nat, r: int)
    ensures n * (2 * r + 1) == 2 * (n * r) + n && n * (2 * r - 1) == 2 * (n * r) - n
    ensures n * (r + 1) == n * r + n
  {
  }

  /** Multiplying by a positive factor keeps order. */
  lemma MulMonotone(n: nat, a: int, b: int)
    requires a <= b
    ensures n * a <= n * b
  {
    assert n * b - n * a == n * (b - a);
  }

  /** With no more completions than chapters, the percentage lies in 0..100. */
  lemma PercentInRange(k: nat, n: nat)
    requires 0 < n && k <= n
    ensures 0 <= RoundPercent(k, n) <= 100
  {
    var r := RoundPercent(k, n);
    MulMonotone(200, k, n);
    if r > 100 {
      MulMonotone(n, 201, 2 * r - 1);
    }
  }

  /** All chapters completed gives 100. */
  lemma PercentFullWhenComplete(n: nat)
    requires n > 0
    ensures RoundPercent(n, n) == 100
  {
    RoundPercentUnique(n, n, 100);
  }

  /**
   * With k <= n the percentage is 100 exactly when 200k >= 199n, i.e. when at most
   * half a percent is missing: rounding can show 100 before the course is complete.
   */
  lemma PercentFullIff(k: nat, n: nat)
    requires 0 < n && k <= n
    ensures RoundPercent(k, n) == 100 <==> 199 * n <= 200 * k
  {
    var r := RoundPercent(k, n);
    PercentInRange(k, n);
    if 199 * n <= 200 * k {
      RoundPercentUnique(k, n, 100);
    }
    if r == 100 {
      assert n * (2 * r - 1) == 199 * n;
    }
  }

  /** Below 200 chapters, 100 is shown exactly when every chapter is completed. */
  lemma PercentFullIffCompleteBelow200(k: nat, n: nat)
    requires 0 < n < 200 && k <= n
    ensures RoundPercent(k, n) == 100 <==> k == n
  {
    PercentFullIff(k, n);
    if k < n {
      MulMonotone(200, k, n - 1);
    }
  }

  /** 199 of 200 chapters already shows 100. */
  lemma NearlyCompleteShowsFull()
    ensures RoundPercent(199, 200) == 100
  {
    PercentFullIff(199, 200);
  }

  /** More completions never lower the percentage. */
  lemma PercentMonotone(k1: nat, k2: nat, n: nat)
    requires n > 0 && k1 <= k2
    ensures RoundPercent(k1, n) <= RoundPercent(k2, n)
  {
    var r1, r2 := RoundPercent(k1, n), RoundPercent(k2, n);
    if r1 > r2 {
      MulMonotone(n, 2 * r2 + 1, 2 * r1 - 1);
    }
  }

  /** The percentage is 0 exactly when less than half a percent is completed. */
  lemma PercentZeroIff(k: nat, n: nat)
    requires n > 0
    ensures RoundPercent(k, n) == 0 <==> 200 * k < n
  {
    var r := RoundPercent(k, n);
    if 200 * k < n {
      RoundPercentUnique(k, n, 0);
    }
    if r >= 1 {
      MulMonotone(n, 1, 2 * r - 1);
    }
  }
}
