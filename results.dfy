/**
 * Score arithmetic shared by the session screens: the rounded percentages of
 * the results screen, the progress bar and the reading-comprehension summary,
 * and the performance tiers and CSS classes chosen from a percentage.
 */
module Results {

  /**
   * `Math.round` of the percentage of `part` in `whole`, for non-negative counts, in exact
   * arithmetic: the nearest integer to 100 * part / whole, halves rounded up.
   */
  function RoundPercent(part: nat, whole: nat): (r: nat)
    requires whole > 0
    ensures 2 * whole * r <= 200 * part + whole < 2 * whole * (r + 1)
  {
    (200 * part + whole) / (2 * whole)
  }

  /** No more correct than asked never shows more than 100%. */
  lemma {:induction false} RoundPercentAtMost100(part: nat, whole: nat)
    requires 0 < whole && part <= whole
    ensures RoundPercent(part, whole) <= 100
  {
    RoundPercentMonotone(part, whole, whole);
    RoundPercentFull(whole);
  }

  /** Everything correct shows exactly 100%. */
  lemma {:induction false} RoundPercentFull(whole: nat)
    requires 0 < whole
    ensures RoundPercent(whole, whole) == 100
  {
    DivUnique(200 * whole + whole, 2 * whole, 100, whole);
  }

  lemma DivUnique(a: nat, d: nat, q: nat, r: nat)
    requires 0 <= r < d && a == d * q + r
    ensures a / d == q
  {
    var q', r' := a / d, a % d;
    assert a == d * q' + r';
    if q' > q {
      MulMonotone(d, q + 1, q');
    } else if q' < q {
      MulMonotone(d, q' + 1, q);
    }
  }

  lemma MulMonotone(d: nat, x: nat, y: nat)
    requires x <= y
    ensures d * x <= d * y
  {
    assert d * y == d * x + d * (y - x);
  }

  /** Nothing correct shows 0%. */
  lemma RoundPercentZero(whole: nat)
    requires 0 < whole
    ensures RoundPercent(0, whole) == 0
  {
  }

  /** More correct answers never show a smaller percentage. */
  lemma {:induction false} RoundPercentMonotone(p: nat, q: nat, whole: nat)
    requires 0 < whole && p <= q
    ensures RoundPercent(p, whole) <= RoundPercent(q, whole)
  {
    var a, b := 200 * p + whole, 200 * q + whole;
    var d := 2 * whole;
    assert a <= b;
    DivMonotone(a, b, d);
  }

  lemma DivMonotone(a: nat, b: nat, d: nat)
    requires 0 < d && a <= b
    ensures a / d <= b / d
  {
    var qa, qb := a / d, b / d;
    assert a == d * qa + a % d;
    assert b == d * qb + b % d;
    if qa > qb {
      MulMonotone(d, qb + 1, qa);
    }
  }

  /** The four performance levels of the results screen (quiz-system.js getPerformanceData). */
  datatype Tier = Excellent | GoodWork | CanImprove | NeedsPractice

  /** The level chosen for a percentage: thresholds 90, 70 and 50, checked in that order. */
  function TierOf(percentage: int): (t: Tier)
    ensures t == Excellent <==> 90 <= percentage
    ensures t == GoodWork <==> 70 <= percentage < 90
    ensures t == CanImprove <==> 50 <= percentage < 70
    ensures t == NeedsPractice <==> percentage < 50
  {
    if percentage >= 90 then Excellent
    else if percentage >= 70 then GoodWork
    else if percentage >= 50 then CanImprove
    else NeedsPractice
  }

  /** The order of the levels, worst first. */
  function Rank(t: Tier): nat {
    match t
    case NeedsPractice => 0
    case CanImprove => 1
    case GoodWork => 2
    case Excellent => 3
  }

  /** A higher percentage never earns a lower level. */
  lemma TierMonotone(p: int, q: int)
    requires p <= q
    ensures Rank(TierOf(p)) <= Rank(TierOf(q))
  {
  }

  datatype Performance = Performance(level: string, message: string)

  /** `getPerformanceData(percentage)`: the title and message shown on the results screen. */
  function PerformanceData(percentage: int): (r: Performance)
    ensures r.level == "¡Excelente!" <==> 90 <= percentage
    ensures r.level == "¡Buen trabajo!" <==> 70 <= percentage < 90
    ensures r.level == "Puede mejorar" <==> 50 <= percentage < 70
    ensures r.level == "Necesita práctica" <==> percentage < 50
    ensures 90 <= percentage ==> r.message == "¡Increíble trabajo! Dominas muy bien este tema."
    ensures 70 <= percentage < 90 ==> r.message == "¡Muy bien! Tienes un buen conocimiento del tema."
    ensures 50 <= percentage < 70 ==> r.message == "Sigue practicando. ¡Estás en el camino correcto!"
    ensures percentage < 50 ==> r.message == "No te desanimes. Con más práctica mejorarás."
  {
    Describe(TierOf(percentage))
  }

  function Describe(t: Tier): Performance {
    match t
    case Excellent => Performance("¡Excelente!", "¡Increíble trabajo! Dominas muy bien este tema.")
    case GoodWork => Performance("¡Buen trabajo!", "¡Muy bien! Tienes un buen conocimiento del tema.")
    case CanImprove => Performance("Puede mejorar", "Sigue practicando. ¡Estás en el camino correcto!")
    case NeedsPractice => Performance("Necesita práctica", "No te desanimes. Con más práctica mejorarás.")
  }

  /** Different levels are shown with different titles. */
  lemma DescribeInjective(s: Tier, t: Tier)
    requires Describe(s).level == Describe(t).level
    ensures s == t
  {
  }

  const ExcellentClass: string := "performance-excellent score-excellent"
  const GoodClass: string := "performance-good score-good"
  const FairClass: string := "performance-fair score-fair"

  /** `getPerformanceClass(percentage)` (quiz-functions.js): only three classes, 90 and 70 as thresholds. */
  function PerformanceClass(percentage: int): (r: string)
    ensures r in {ExcellentClass, GoodClass, FairClass}
  {
    if percentage >= 90 then ExcellentClass
    else if percentage >= 70 then GoodClass
    else FairClass
  }

  /**
   * The CSS class agrees with the level above 70 and lumps the two lower
   * levels together into the "fair" class.
   */
  lemma ClassAgreesWithTier(percentage: int)
    ensures PerformanceClass(percentage) == ExcellentClass <==> TierOf(percentage) == Excellent
    ensures PerformanceClass(percentage) == GoodClass <==> TierOf(percentage) == GoodWork
    ensures PerformanceClass(percentage) == FairClass <==> TierOf(percentage) in {CanImprove, NeedsPractice}
  {
  }

  /**
   * The progress bar (`updateProgressBar`): question `current` of `total`,
   * with its rounded percentage.
   */
  function ProgressPercent(current: nat, total: nat): (r: nat)
    requires 0 < total
    ensures r == RoundPercent(current, total)
    ensures current <= total ==> r <= 100
    ensures current == total ==> r == 100
  {
    if current == total then RoundPercentFull(total); RoundPercent(current, total)
    else if current < total then RoundPercentAtMost100(current, total); RoundPercent(current, total)
    else RoundPercent(current, total)
  }
}
