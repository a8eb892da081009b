/** Comparing two benchmark runs: percentage change, classification and the three lists. */
module Benchmarks {
  import opened RealArithmetic

  datatype MetricChange = REGRESSION | IMPROVEMENT | UNCHANGED

  datatype Metric = Metric(value: real, unit: string, lowerIsBetter: bool)

  datatype Comparison = Comparison(
    name: string, baseline: real, current: real, unit: string,
    changePercent: real, changeType: MetricChange, lowerIsBetter: bool)

  function ChangePercent(baseline: real, current: real, lowerIsBetter: bool): real {
    if baseline == 0.0 then
      if current == 0.0 then 0.0 else if lowerIsBetter then 100.0 else -100.0
    else ((current - baseline) / Abs(baseline)) * 100.0
  }

  function Classify(change: real, tolerance: real, lowerIsBetter: bool): MetricChange {
    var limit := tolerance * 100.0;
    if lowerIsBetter then
      if change > limit then REGRESSION else if change < -limit then IMPROVEMENT else UNCHANGED
    else
      if change < -limit then REGRESSION else if change > limit then IMPROVEMENT else UNCHANGED
  }

  /** The verdict on one metric going from `a` to `b`. */
  function Verdict(a: real, b: real, tolerance: real, lowerIsBetter: bool): MetricChange {
    Classify(ChangePercent(a, b, lowerIsBetter), tolerance, lowerIsBetter)
  }

  // ---- what the percentages mean ------------------------------------------

  lemma PercentOrder(x: real, a: real, t: real)
    requires a > 0.0
    ensures (x / a) * 100.0 > t * 100.0 <==> x > t * a
    ensures (x / a) * 100.0 < -(t * 100.0) <==> x < -(t * a)
  {
    QuotientAtMost(x, a, t);
    QuotientAtMost(-x, a, t);
    assert (-x) / a == -(x / a);
  }

  /** Losing more than the whole is impossible. */
  lemma WholeShare(t: real, a: real)
    requires a > 0.0
    ensures a > t * a <==> t < 1.0
  {
    ScaleKeepsOrder(1.0, t, a);
  }

  /** The verdict without division: a move by more than the tolerance, as a share of the
      baseline; a zero baseline reads any other value as a 100% regression. */
  lemma VerdictMeaning(a: real, b: real, t: real, lower: bool)
    requires a >= 0.0 && b >= 0.0 && t >= 0.0
    ensures Verdict(a, b, t, lower) == REGRESSION <==>
      (if a == 0.0 then b != 0.0 && t < 1.0 else if lower then b - a > t * a else a - b > t * a)
    ensures Verdict(a, b, t, lower) == IMPROVEMENT <==>
      a != 0.0 && (if lower then a - b > t * a else b - a > t * a)
  {
    if a > 0.0 {
      PercentOrder(b - a, a, t);
      ProductNonNegative(t, a);
    }
  }

  lemma FallReversed(a: real, b: real, t: real)
    requires a > 0.0 && b >= 0.0 && t >= 0.0 && a - b > t * a
    ensures if b == 0.0 then t < 1.0 else a - b > t * b
  {
    ProductNonNegative(t, a);
    if b == 0.0 {
      WholeShare(t, a);
    } else {
      ProductNonNegative(t, a - b);
      assert t * (a - b) == t * a - t * b;
    }
  }

  /** For a lower-is-better metric, an improvement read backwards is a regression. */
  lemma ImprovementReverses(a: real, b: real, t: real)
    requires a >= 0.0 && b >= 0.0 && t >= 0.0
    requires Verdict(a, b, t, true) == IMPROVEMENT
    ensures Verdict(b, a, t, true) == REGRESSION
  {
    VerdictMeaning(a, b, t, true);
    VerdictMeaning(b, a, t, true);
    FallReversed(a, b, t);
  }

  /** For a higher-is-better metric it is one only past a higher bar: the gain must also
      exceed the tolerance as a share of the new value. */
  lemma HigherImprovementReversesIff(a: real, b: real, t: real)
    requires a >= 0.0 && b >= 0.0 && t >= 0.0
    requires Verdict(a, b, t, false) == IMPROVEMENT
    ensures Verdict(b, a, t, false) == REGRESSION <==> b - a > t * b
  {
    VerdictMeaning(a, b, t, false);
    VerdictMeaning(b, a, t, false);
    ProductNonNegative(t, a);
  }

  /** 100 to 110.5 at 10%: an improvement whose reverse is unchanged. */
  lemma HigherImprovementCanVanish()
    ensures Verdict(100.0, 110.5, 0.1, false) == IMPROVEMENT
    ensures Verdict(110.5, 100.0, 0.1, false) == UNCHANGED
  {
    VerdictMeaning(100.0, 110.5, 0.1, false);
    VerdictMeaning(110.5, 100.0, 0.1, false);
  }

  lemma DropToZero(a: real, t: real, lower: bool)
    requires a > 0.0 && t >= 0.0
    ensures Verdict(a, 0.0, t, lower) == REGRESSION <==> !lower && t < 1.0
  {
    VerdictMeaning(a, 0.0, t, lower);
    ProductNonNegative(t, a);
    WholeShare(t, a);
  }

  lemma RiseFromZero(b: real, t: real, lower: bool)
    requires b > 0.0 && t >= 0.0
    ensures Verdict(0.0, b, t, lower) == REGRESSION <==> t < 1.0
  {
    VerdictMeaning(0.0, b, t, lower);
  }

  /** A metric regresses both ways exactly when higher is better and one value is zero. */
  lemma RegressesBothWaysIff(a: real, b: real, t: real, lower: bool)
    requires a >= 0.0 && b >= 0.0 && t >= 0.0
    ensures Verdict(a, b, t, lower) == REGRESSION && Verdict(b, a, t, lower) == REGRESSION
        <==> !lower && t < 1.0 && (a == 0.0) != (b == 0.0)
  {
    if a == 0.0 && b > 0.0 {
      RiseFromZero(b, t, lower);
      DropToZero(b, t, lower);
    } else if b == 0.0 && a > 0.0 {
      DropToZero(a, t, lower);
      RiseFromZero(a, t, lower);
    } else {
      VerdictMeaning(a, b, t, lower);
      VerdictMeaning(b, a, t, lower);
      ProductNonNegative(t, a);
      ProductNonNegative(t, b);
    }
  }

  // ---- whole runs ---------------------------------------------------------

  type Metrics = map<string, Metric>

  function Compare(name: string, baseline: Metrics, current: Metrics, tolerance: real): Comparison
    requires name in baseline && name in current
  {
    var b, c := baseline[name], current[name];
    var change := ChangePercent(b.value, c.value, b.lowerIsBetter);
    Comparison(name, b.value, c.value, b.unit, change, Classify(change, tolerance, b.lowerIsBetter), b.lowerIsBetter)
  }

  /** A comparison tells the two runs apart, takes unit and direction from the first, and its
      percentage is the change as a share of the first value; from zero it is 100% the bad way. */
  lemma CompareMeaning(name: string, baseline: Metrics, current: Metrics, tolerance: real)
    requires name in baseline && name in current
    ensures var m, a, b := Compare(name, baseline, current, tolerance), baseline[name], current[name];
      && m.name == name && m.baseline == a.value && m.current == b.value
      && m.unit == a.unit && m.lowerIsBetter == a.lowerIsBetter
      && m.changeType == Verdict(a.value, b.value, tolerance, a.lowerIsBetter)
      && (a.value != 0.0 ==> m.changePercent * Abs(a.value) == 100.0 * (b.value - a.value))
      && (a.value == 0.0 ==>
            m.changePercent == if b.value == 0.0 then 0.0 else if a.lowerIsBetter then 100.0 else -100.0)
  {
    var a, b := baseline[name].value, current[name].value;
    if a != 0.0 {
      var q := (b - a) / Abs(a);
      assert q * Abs(a) == b - a;
      assert (q * 100.0) * Abs(a) == 100.0 * (q * Abs(a));
    }
  }

  /** The comparisons of one type, in order. */
  function OfType(metrics: seq<Comparison>, change: MetricChange): seq<Comparison> {
    if metrics == [] then []
    else
      var last := metrics[|metrics| - 1];
      OfType(metrics[..|metrics| - 1], change) + (if last.changeType == change then [last] else [])
  }

  /** `names` is the sorted list of metrics both runs have. */
  method CompareBenchmarks(baseline: Metrics, current: Metrics, names: seq<string>, tolerance: real)
    returns (metrics: seq<Comparison>, regressions: seq<Comparison>, improvements: seq<Comparison>)
    requires forall n :: n in names <==> n in baseline && n in current
    requires forall i, j :: 0 <= i < j < |names| ==> names[i] != names[j]
    ensures |metrics| == |names|
    ensures forall i :: 0 <= i < |names| ==>
      names[i] in baseline && names[i] in current && metrics[i] == Compare(names[i], baseline, current, tolerance)
    ensures regressions == OfType(metrics, REGRESSION) && improvements == OfType(metrics, IMPROVEMENT)
  {
    metrics, regressions, improvements := [], [], [];
    for i := 0 to |names|
      invariant |metrics| == i
      invariant forall k :: 0 <= k < i ==>
        names[k] in baseline && names[k] in current && metrics[k] == Compare(names[k], baseline, current, tolerance)
      invariant regressions == OfType(metrics, REGRESSION) && improvements == OfType(metrics, IMPROVEMENT)
    {
      assert names[i] in names;
      var comparison := Compare(names[i], baseline, current, tolerance);
      OfTypeAppend(metrics, comparison, REGRESSION);
      OfTypeAppend(metrics, comparison, IMPROVEMENT);
      metrics := metrics + [comparison];
      if comparison.changeType == REGRESSION {
        regressions := regressions + [comparison];
      } else if comparison.changeType == IMPROVEMENT {
        improvements := improvements + [comparison];
      }
    }
  }

  lemma OfTypeAppend(metrics: seq<Comparison>, c: Comparison, change: MetricChange)
    ensures OfType(metrics + [c], change) == OfType(metrics, change) + (if c.changeType == change then [c] else [])
  {
    assert (metrics + [c])[..|metrics|] == metrics;
  }

  /** Every comparison is in the list of its own type, as often as it occurs, and in no other. */
  lemma {:induction false} TypesPartition(metrics: seq<Comparison>, change: MetricChange, c: Comparison)
    ensures multiset(OfType(metrics, change))[c] == if c.changeType == change then multiset(metrics)[c] else 0
  {
    if metrics != [] {
      var front, last := metrics[..|metrics| - 1], metrics[|metrics| - 1];
      TypesPartition(front, change, c);
      assert metrics == front + [last];
    }
  }

  ghost predicate NonNegative(m: Metrics) {
    forall n :: n in m ==> m[n].value >= 0.0
  }

  /** Swapping the two runs: an improvement becomes a regression when lower is better, and
      otherwise when the gain also exceeds the tolerance as a share of the new value; and a
      metric regresses both ways exactly in the case of one zero value. */
  lemma SwappedRuns(baseline: Metrics, current: Metrics, tolerance: real, name: string)
    requires NonNegative(baseline) && NonNegative(current) && tolerance >= 0.0
    requires name in baseline && name in current
    requires baseline[name].lowerIsBetter == current[name].lowerIsBetter
    ensures var there, back := Compare(name, baseline, current, tolerance), Compare(name, current, baseline, tolerance);
      var a, b, lower := baseline[name].value, current[name].value, baseline[name].lowerIsBetter;
      && (there.changeType == IMPROVEMENT ==>
            (back.changeType == REGRESSION <==> lower || b - a > tolerance * b))
      && (there.changeType == REGRESSION && back.changeType == REGRESSION
          <==> !lower && tolerance < 1.0 && (a == 0.0) != (b == 0.0))
  {
    var a, b, lower := baseline[name].value, current[name].value, baseline[name].lowerIsBetter;
    if Verdict(a, b, tolerance, lower) == IMPROVEMENT {
      if lower {
        ImprovementReverses(a, b, tolerance);
      } else {
        HigherImprovementReversesIff(a, b, tolerance);
      }
    }
    RegressesBothWaysIff(a, b, tolerance, lower);
  }
}
