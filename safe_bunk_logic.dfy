/**
 * The stand-alone verification script (calculateSafeBunk) that the
 * controller's calculator was taken from, with its worked test cases.
 * The script applies the same two formulas but has no guard for a subject
 * without lectures: it divides attended by total directly.
 */
module SafeBunkLogic {
  import opened SafeBunk

  /**
   * calculateSafeBunk(attended, total, m / 100). For total == 0 the
   * JavaScript quotient attended / total is +Infinity when attended > 0,
   * which is at least any target, and NaN when attended == 0, which compares
   * false; the two formulas are then applied as in the controller.
   */
  function CalculateSafeBunk(attended: nat, total: nat, m: int): (r: Verdict)
    requires ValidTarget(m)
    ensures r.Safe? ==> r.safeBunks >= 0
  {
    var meets := if total == 0 then attended > 0 else 100 * attended >= m * total;
    if meets then
      Safe(FloorDiv(100 * attended - m * total, m))
    else
      Danger(CeilDiv(m * total - 100 * attended, 100 - m))
  }

  /**
   * Whenever a lecture has been held, or nothing has been attended (so in
   * particular for every consistent pair attended <= total), the script and
   * the controller report the same status and the same count.
   */
  lemma AgreesWithController(attended: nat, total: nat, m: int)
    requires ValidTarget(m)
    requires total > 0 || attended == 0
    ensures CalculateSafeBunk(attended, total, m) == SafeBunkStatus(attended, total, m)
  {
  }

  /** The two differ only when attended > 0 lectures were recorded against a total of 0. */
  lemma DiffersWithoutLectures(attended: nat, m: int)
    requires ValidTarget(m)
    requires attended > 0
    ensures CalculateSafeBunk(attended, 0, m).Safe?
    ensures SafeBunkStatus(attended, 0, m).Danger?
  {
  }

  /**
   * The script's own statement of intent: for SAFE, P / (T + x) >= target
   * holds for exactly the x up to the returned count; for DANGER,
   * (P + y) / (T + y) >= target holds for exactly the y from the returned
   * count on, which is at least 1.
   */
  lemma ScriptCountsAreTight(attended: nat, total: nat, m: int)
    requires ValidTarget(m)
    requires total > 0
    ensures match CalculateSafeBunk(attended, total, m)
      case Safe(x) => x >= 0 && forall k: nat :: CanSkip(attended, total, m, k) <==> k <= x
      case Danger(y) => y >= 1 && forall k: nat :: Recovers(attended, total, m, k) <==> k >= y
  {
    AgreesWithController(attended, total, m);
    if SafeBunkStatus(attended, total, m).Safe? {
      SafeBunksIsLargest(attended, total, m);
    } else {
      NeededIsSmallest(attended, total, m);
    }
  }

  /** The script's test cases at a 75% target, with the checks its comments carry out. */
  lemma WorkedExamples()
    ensures CalculateSafeBunk(12, 15, 75) == Safe(1)
    ensures CalculateSafeBunk(10, 15, 75) == Danger(5) && MeetsTarget(10 + 5, 15 + 5, 75)
    ensures ((10 + 5) as real) / ((15 + 5) as real) == 0.75
    ensures CalculateSafeBunk(15, 20, 75) == Safe(0) && (15 as real) / (20 as real) == 0.75
    ensures CalculateSafeBunk(20, 20, 75) == Safe(6)
    ensures MeetsTarget(20, 20 + 6, 75) && !MeetsTarget(20, 20 + 7, 75)
    ensures CalculateSafeBunk(0, 10, 75) == Danger(30) && MeetsTarget(0 + 30, 10 + 30, 75)
    ensures ((0 + 30) as real) / ((10 + 30) as real) == 0.75
  {
    MeetsTargetCross(15, 20, 75);
    MeetsTargetCross(20, 26, 75);
    MeetsTargetCross(20, 27, 75);
    MeetsTargetCross(30, 40, 75);
  }
}
