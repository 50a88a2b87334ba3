/**
 * The safe-bunk calculator of the attendance controller
 * (calculateSafeBunkStatus). Given the attended and total lecture counts of a
 * subject and the minimum-attendance target, it either reports SAFE with the
 * number of further lectures that can be skipped, or DANGER with the number
 * of consecutive lectures that must be attended to get back to the target.
 *
 * The target is the user's integer percentage m (the source divides it by
 * 100), so the fraction p/d meets the target exactly when 100*p >= m*d, and
 * every division below is exact integer arithmetic rather than floating point.
 */
module SafeBunk {

  datatype Verdict = Safe(safeBunks: int) | Danger(needed: int)

  /** A target percentage for which the calculator's formulas are defined. */
  predicate ValidTarget(m: int) {
    0 < m < 100
  }

  /** The fraction p/d, as a real number, is at least the target m/100. */
  ghost predicate MeetsTarget(p: int, d: int, m: int) {
    d > 0 && (p as real) / (d as real) >= (m as real) / 100.0
  }

  /** Math.floor(n / d) for a positive divisor. */
  function FloorDiv(n: int, d: int): (r: int)
    requires d > 0
    ensures d * r <= n < d * r + d
    ensures n >= 0 ==> r >= 0
  {
    n / d
  }

  /** Math.ceil(n / d) for a positive divisor. */
  function CeilDiv(n: int, d: int): (r: int)
    requires d > 0
    ensures d * r - d < n <= d * r
    ensures n > 0 ==> r >= 1
  {
    -FloorDiv(-n, d)
  }

  /**
   * calculateSafeBunkStatus(attended, total, m / 100). With no lectures yet the
   * current percentage is taken as 0; otherwise it is attended/total.
   * SAFE: floor(attended/target - total) = floor((100*attended - m*total) / m).
   * DANGER: ceil((target*total - attended) / (1 - target))
   *       = ceil((m*total - 100*attended) / (100 - m)).
   */
  function SafeBunkStatus(attended: nat, total: nat, m: int): (r: Verdict)
    requires ValidTarget(m)
    ensures r.Safe? ==> r.safeBunks >= 0
    ensures r.Danger? && total > 0 ==> r.needed >= 1
  {
    var meets := if total == 0 then 0 >= m else 100 * attended >= m * total;
    if meets then
      Safe(FloorDiv(100 * attended - m * total, m))
    else
      Danger(CeilDiv(m * total - 100 * attended, 100 - m))
  }

  /** For a positive denominator, the real fraction test is the cross-multiplied one. */
  lemma MeetsTargetCross(p: int, d: int, m: int)
    requires d > 0
    ensures MeetsTarget(p, d, m) <==> 100 * p >= m * d
  {
    var q := (p as real) / (d as real);
    assert q * (d as real) == p as real;
    var g := (m as real) / 100.0;
    assert g * 100.0 == m as real;
    if q >= g {
      assert q * (d as real) >= g * (d as real);
      assert 100.0 * (p as real) >= (m as real) * (d as real);
    } else {
      assert q * (d as real) < g * (d as real);
      assert 100.0 * (p as real) < (m as real) * (d as real);
    }
  }

  /** The result is SAFE exactly when attended/total reaches the target. */
  lemma SafeIffMeetsTarget(attended: nat, total: nat, m: int)
    requires ValidTarget(m)
    ensures SafeBunkStatus(attended, total, m).Safe? <==> MeetsTarget(attended, total, m)
  {
    if total > 0 {
      MeetsTargetCross(attended, total, m);
    }
  }

  /** attended / (total + k) still meets the target after k more missed lectures. */
  ghost predicate CanSkip(attended: int, total: int, m: int, k: nat) {
    MeetsTarget(attended, total + k, m)
  }

  /** (attended + k) / (total + k) meets the target after k more attended lectures. */
  ghost predicate Recovers(attended: int, total: int, m: int, k: nat) {
    MeetsTarget(attended + k, total + k, m)
  }

  /**
   * The SAFE count is the largest number x of further missed lectures with
   * attended / (total + x) still at or above the target.
   */
  lemma SafeBunksIsLargest(attended: nat, total: nat, m: int)
    requires ValidTarget(m)
    requires SafeBunkStatus(attended, total, m).Safe?
    ensures var x := SafeBunkStatus(attended, total, m).safeBunks;
      x >= 0 && CanSkip(attended, total, m, x) && !CanSkip(attended, total, m, x + 1)
    ensures var x := SafeBunkStatus(attended, total, m).safeBunks;
      forall k: nat :: CanSkip(attended, total, m, k) <==> k <= x
  {
    var x := SafeBunkStatus(attended, total, m).safeBunks;
    forall k: nat
      ensures CanSkip(attended, total, m, k) <==> k <= x
    {
      SkipStep(attended, total, m, x, k);
    }
    SkipStep(attended, total, m, x, x);
    SkipStep(attended, total, m, x, x + 1);
  }

  lemma SkipStep(attended: nat, total: nat, m: int, x: int, k: nat)
    requires ValidTarget(m) && total > 0
    requires m * x <= 100 * attended - m * total < m * x + m
    ensures CanSkip(attended, total, m, k) <==> k <= x
  {
    MeetsTargetCross(attended, total + k, m);
    assert m * (total + k) == m * total + m * k;
    if k <= x {
      MulMonotone(m, k, x);
    } else {
      MulMonotone(m, x + 1, k);
    }
  }

  /**
   * With at least one lecture held, the DANGER count is the smallest number y
   * of further attended lectures with (attended + y) / (total + y) at or above
   * the target, and it is at least 1.
   */
  lemma NeededIsSmallest(attended: nat, total: nat, m: int)
    requires ValidTarget(m)
    requires total > 0
    requires SafeBunkStatus(attended, total, m).Danger?
    ensures var y := SafeBunkStatus(attended, total, m).needed;
      y >= 1 && Recovers(attended, total, m, y) && !Recovers(attended, total, m, y - 1)
    ensures var y := SafeBunkStatus(attended, total, m).needed;
      forall k: nat :: Recovers(attended, total, m, k) <==> k >= y
  {
    var y := SafeBunkStatus(attended, total, m).needed;
    forall k: nat
      ensures Recovers(attended, total, m, k) <==> k >= y
    {
      RecoverStep(attended, total, m, y, k);
    }
    RecoverStep(attended, total, m, y, y);
    RecoverStep(attended, total, m, y, y - 1);
  }

  lemma RecoverStep(attended: nat, total: nat, m: int, y: int, k: nat)
    requires ValidTarget(m) && total > 0
    requires (100 - m) * y - (100 - m) < m * total - 100 * attended <= (100 - m) * y
    ensures Recovers(attended, total, m, k) <==> k >= y
  {
    MeetsTargetCross(attended + k, total + k, m);
    var d := 100 - m;
    assert 100 * (attended + k) - m * (total + k) == d * k - (m * total - 100 * attended);
    if k >= y {
      MulMonotone(d, y, k);
    } else {
      MulMonotone(d, k, y - 1);
    }
  }

  /**
   * With no lecture held the current percentage is 0, so the result is
   * DANGER; with nothing attended either, nothing needs recovering.
   */
  lemma ZeroTotalIsDanger(attended: nat, m: int)
    requires ValidTarget(m)
    ensures SafeBunkStatus(attended, 0, m).Danger?
    ensures attended == 0 ==> SafeBunkStatus(attended, 0, m) == Danger(0)
  {
  }

  /** For consistent counters (attended <= total) the reported count is never negative. */
  lemma CountIsNonNegative(attended: nat, total: nat, m: int)
    requires ValidTarget(m)
    requires attended <= total
    ensures match SafeBunkStatus(attended, total, m)
      case Safe(x) => x >= 0
      case Danger(y) => y >= 0
  {
  }

  lemma MulMonotone(c: int, i: int, j: int)
    requires c >= 0 && i <= j
    ensures c * i <= c * j
  {
    assert c * j - c * i == c * (j - i);
  }
}
