/** The reported effects in terms of utilities observed. */
module EffectMeaning {
  import opened Multiples
  import opened Options
  import opened MatchedUnits
  import opened UnitSpread
  import Metrics = ScientificMetrics
  import Statistics = ScientificStatistics
  import Holm = HolmAdjustment

  // ---- Observed utilities ----

  /** The arm's variant for the seed was observed in the repetition, with a utility and
      not blocked. */
  predicate Observed(bindings: seq<Binding>, table: Table, arm: Arm, seed: string, repetition: nat) {
    var v := VariantOf(bindings, seed, arm);
    && v.Some? && Key(v.value, repetition) in table
    && table[Key(v.value, repetition)].utility.Some? && !(table[Key(v.value, repetition)].blocked > 0.0)
  }

  /** The utility of the arm's variant for the seed. */
  function UtilityOf(bindings: seq<Binding>, table: Table, arm: Arm, seed: string, repetition: nat): real {
    if Observed(bindings, table, arm, seed, repetition)
    then table[Key(VariantOf(bindings, seed, arm).value, repetition)].utility.value else 0.0
  }

  /** A seed has a difference exactly when both arms were observed, and it is treatment
      minus reference. */
  lemma DifferenceIs(bindings: seq<Binding>, table: Table, reference: Arm, treatment: Arm, seed: string, r: nat)
    ensures SeedDelta(bindings, table, reference, treatment, seed, r) ==
            if Observed(bindings, table, reference, seed, r) && Observed(bindings, table, treatment, seed, r)
            then Some(UtilityOf(bindings, table, treatment, seed, r) - UtilityOf(bindings, table, reference, seed, r))
            else None
  {
  }

  /** The seeds that declare both arms were all observed with both of them. */
  ghost predicate AllObserved(bindings: seq<Binding>, table: Table, reference: Arm, treatment: Arm, r: nat) {
    && Seeds(bindings, reference, treatment) != {}
    && forall s | Paired(bindings, reference, treatment, s) ::
         Observed(bindings, table, reference, s, r) && Observed(bindings, table, treatment, s, r)
  }

  lemma UnitObserved(bindings: seq<Binding>, table: Table, reference: Arm, treatment: Arm, r: nat)
    ensures Unit(bindings, table, reference, treatment, r).Some? <==>
            AllObserved(bindings, table, reference, treatment, r)
  {
    SeedsArePaired(bindings, reference, treatment);
    UnitExists(bindings, table, reference, treatment, r);
    forall s ensures SeedDelta(bindings, table, reference, treatment, s, r).Some? <==>
                     Observed(bindings, table, reference, s, r) && Observed(bindings, table, treatment, s, r) {
      DifferenceIs(bindings, table, reference, treatment, s, r);
    }
  }

  /** The arm's own utilities over the seeds of the pair. */
  ghost function Utilities(bindings: seq<Binding>, table: Table, seeds: set<string>, arm: Arm,
                           r: nat): map<string, real> {
    map s | s in seeds :: UtilityOf(bindings, table, arm, s, r)
  }

  /** The mean utility of one arm of a pair in a repetition. */
  ghost function ArmMean(bindings: seq<Binding>, table: Table, reference: Arm, treatment: Arm, arm: Arm, r: nat): real
    requires Seeds(bindings, reference, treatment) != {}
  {
    var seeds := Seeds(bindings, reference, treatment);
    Total(Utilities(bindings, table, seeds, arm, r)) / |seeds| as real
  }

  /** The means of one arm of a pair over the complete repetitions, in order. */
  ghost function ArmMeans(bindings: seq<Binding>, table: Table, reference: Arm, treatment: Arm, arm: Arm,
                          n: nat): seq<real> {
    if n == 0 then []
    else
      var before := ArmMeans(bindings, table, reference, treatment, arm, n - 1);
      if AllObserved(bindings, table, reference, treatment, n - 1)
      then before + [ArmMean(bindings, table, reference, treatment, arm, n - 1)] else before
  }

  lemma {:induction false} TotalDifference(a: map<string, real>, b: map<string, real>, c: map<string, real>)
    requires a.Keys == b.Keys == c.Keys && forall s | s in c :: c[s] == a[s] - b[s]
    ensures Total(c) == Total(a) - Total(b)
    decreases |c|
  {
    if c == map[] {
      assert a == map[] && b == map[];
    } else {
      var s :| s in c;
      TotalWithout(a, s);
      TotalWithout(b, s);
      TotalWithout(c, s);
      TotalDifference(a - {s}, b - {s}, c - {s});
    }
  }

  lemma QuotientDifference(x: real, y: real, n: nat)
    requires n > 0
    ensures (x - y) / n as real == x / n as real - y / n as real
  {
  }

  lemma TotalsDiffer(bindings: seq<Binding>, table: Table, reference: Arm, treatment: Arm, r: nat)
    requires AllObserved(bindings, table, reference, treatment, r)
    ensures var seeds := Seeds(bindings, reference, treatment);
            var deltas := Deltas(bindings, table, reference, treatment, seeds, r);
            deltas.Keys == seeds &&
            Total(deltas) == Total(Utilities(bindings, table, seeds, treatment, r))
                             - Total(Utilities(bindings, table, seeds, reference, r))
  {
    var seeds := Seeds(bindings, reference, treatment);
    SeedsArePaired(bindings, reference, treatment);
    forall s | s in seeds { DifferenceIs(bindings, table, reference, treatment, s, r); }
    TotalDifference(Utilities(bindings, table, seeds, treatment, r), Utilities(bindings, table, seeds, reference, r),
                    Deltas(bindings, table, reference, treatment, seeds, r));
  }

  /** The unit of a repetition is the treatment's mean less the reference's. */
  lemma UnitIsDifference(bindings: seq<Binding>, table: Table, reference: Arm, treatment: Arm, r: nat)
    requires AllObserved(bindings, table, reference, treatment, r)
    ensures Unit(bindings, table, reference, treatment, r) ==
            Some(ArmMean(bindings, table, reference, treatment, treatment, r)
                 - ArmMean(bindings, table, reference, treatment, reference, r))
  {
    var seeds := Seeds(bindings, reference, treatment);
    TotalsDiffer(bindings, table, reference, treatment, r);
    UnitIsTotal(bindings, table, reference, treatment, r);
    QuotientDifference(Total(Utilities(bindings, table, seeds, treatment, r)),
                       Total(Utilities(bindings, table, seeds, reference, r)), |seeds|);
  }

  lemma UnitIsTotal(bindings: seq<Binding>, table: Table, reference: Arm, treatment: Arm, r: nat)
    requires var seeds := Seeds(bindings, reference, treatment);
             seeds != {} && Deltas(bindings, table, reference, treatment, seeds, r).Keys == seeds
    ensures var seeds := Seeds(bindings, reference, treatment);
            Unit(bindings, table, reference, treatment, r) ==
            Some(Total(Deltas(bindings, table, reference, treatment, seeds, r)) / |seeds| as real)
  {
  }

  lemma SumSnoc(values: seq<real>, x: real)
    ensures SumOf(values + [x]) == SumOf(values) + x
  {
    assert (values + [x])[..|values|] == values;
  }

  /** One repetition: every list grows by its value, or none does. */
  lemma NextMeans(bindings: seq<Binding>, table: Table, reference: Arm, treatment: Arm, arm: Arm, n: nat)
    ensures var before := ArmMeans(bindings, table, reference, treatment, arm, n);
            ArmMeans(bindings, table, reference, treatment, arm, n + 1) ==
            if AllObserved(bindings, table, reference, treatment, n)
            then before + [ArmMean(bindings, table, reference, treatment, arm, n)] else before
  {
  }

  lemma NextSum(units: seq<real>, own: seq<real>, other: seq<real>, unit: Option<real>, a: real, b: real)
    requires |units| == |own| == |other| && SumOf(units) == SumOf(own) - SumOf(other)
    requires unit.Some? ==> unit.value == a - b
    ensures var next := Extend(units, unit);
            if unit.None? then next == units
            else |next| == |own + [a]| == |other + [b]| && SumOf(next) == SumOf(own + [a]) - SumOf(other + [b])
  {
    if unit.Some? {
      SumSnoc(units, unit.value);
      SumSnoc(own, a);
      SumSnoc(other, b);
    }
  }

  lemma {:induction false} SumsDiffer(bindings: seq<Binding>, table: Table, reference: Arm, treatment: Arm, n: nat)
    ensures var units := Units(bindings, table, reference, treatment, n);
            var own := ArmMeans(bindings, table, reference, treatment, treatment, n);
            var other := ArmMeans(bindings, table, reference, treatment, reference, n);
            |units| == |own| == |other| && SumOf(units) == SumOf(own) - SumOf(other)
  {
    if n > 0 {
      var m := n - 1;
      SumsDiffer(bindings, table, reference, treatment, m);
      NextMeans(bindings, table, reference, treatment, treatment, m);
      NextMeans(bindings, table, reference, treatment, reference, m);
      UnitObserved(bindings, table, reference, treatment, m);
      var a, b := 0.0, 0.0;
      if AllObserved(bindings, table, reference, treatment, m) {
        UnitIsDifference(bindings, table, reference, treatment, m);
        a := ArmMean(bindings, table, reference, treatment, treatment, m);
        b := ArmMean(bindings, table, reference, treatment, reference, m);
      }
      NextSum(Units(bindings, table, reference, treatment, m),
              ArmMeans(bindings, table, reference, treatment, treatment, m),
              ArmMeans(bindings, table, reference, treatment, reference, m),
              Unit(bindings, table, reference, treatment, m), a, b);
    }
  }

  /** The effect of a pair is the treatment's mean over the complete repetitions less the
      reference's. */
  lemma EffectIsDifference(bindings: seq<Binding>, table: Table, reference: Arm, treatment: Arm, n: nat)
    requires Units(bindings, table, reference, treatment, n) != []
    ensures var own := ArmMeans(bindings, table, reference, treatment, treatment, n);
            var other := ArmMeans(bindings, table, reference, treatment, reference, n);
            && own != [] && other != []
            && Mean(Units(bindings, table, reference, treatment, n)) == Mean(own) - Mean(other)
  {
    SumsDiffer(bindings, table, reference, treatment, n);
    var own := ArmMeans(bindings, table, reference, treatment, treatment, n);
    QuotientDifference(SumOf(own), SumOf(ArmMeans(bindings, table, reference, treatment, reference, n)), |own|);
  }

  // ---- The lifetime estimands ----

  ghost function Means(bindings: seq<Binding>, table: Table, arm: Arm, n: nat): seq<real> {
    ArmMeans(bindings, table, FixedSeed, SelfEvolve, arm, n)
  }

  /** The complete repetitions in which SelfEvolve did better. */
  ghost function Better(bindings: seq<Binding>, table: Table, n: nat): set<nat> {
    set r: nat | r < n && AllObserved(bindings, table, FixedSeed, SelfEvolve, r)
                 && ArmMean(bindings, table, FixedSeed, SelfEvolve, SelfEvolve, r)
                    > ArmMean(bindings, table, FixedSeed, SelfEvolve, FixedSeed, r)
  }

  lemma SelfUnitIs(bindings: seq<Binding>, table: Table, r: nat)
    ensures Metrics.SelfUnit(bindings, table, r) ==
            if AllObserved(bindings, table, FixedSeed, SelfEvolve, r)
            then Some(ArmMean(bindings, table, FixedSeed, SelfEvolve, SelfEvolve, r)) else None
  {
    UnitObserved(bindings, table, FixedSeed, SelfEvolve, r);
    if AllObserved(bindings, table, FixedSeed, SelfEvolve, r) {
      var seeds := Seeds(bindings, FixedSeed, SelfEvolve);
      SeedsArePaired(bindings, FixedSeed, SelfEvolve);
      forall s | s in seeds { DifferenceIs(bindings, table, FixedSeed, SelfEvolve, s, r); }
      assert Metrics.Selfs(bindings, table, seeds, r) == Utilities(bindings, table, seeds, SelfEvolve, r);
    }
  }

  lemma NextSelf(bindings: seq<Binding>, table: Table, n: nat)
    ensures var before := Metrics.SelfUnits(bindings, table, n);
            Metrics.SelfUnits(bindings, table, n + 1) ==
            if AllObserved(bindings, table, FixedSeed, SelfEvolve, n)
            then before + [ArmMean(bindings, table, FixedSeed, SelfEvolve, SelfEvolve, n)] else before
  {
    SelfUnitIs(bindings, table, n);
  }

  lemma {:induction false} SelfUnitsAre(bindings: seq<Binding>, table: Table, n: nat)
    ensures Metrics.SelfUnits(bindings, table, n) == Means(bindings, table, SelfEvolve, n)
  {
    if n > 0 {
      SelfUnitsAre(bindings, table, n - 1);
      NextSelf(bindings, table, n - 1);
      NextMeans(bindings, table, FixedSeed, SelfEvolve, SelfEvolve, n - 1);
    }
  }

  lemma PositiveSnoc(values: seq<real>, x: real)
    ensures Metrics.Positives(values + [x]) == Metrics.Positives(values) + if x > 0.0 then 1 else 0
  {
    assert (values + [x])[..|values|] == values;
  }

  lemma NextBetter(bindings: seq<Binding>, table: Table, n: nat)
    ensures var unit := Unit(bindings, table, FixedSeed, SelfEvolve, n);
            Better(bindings, table, n + 1) ==
            Better(bindings, table, n) + if unit.Some? && unit.value > 0.0 then {n} else {}
  {
    UnitObserved(bindings, table, FixedSeed, SelfEvolve, n);
    if AllObserved(bindings, table, FixedSeed, SelfEvolve, n) {
      UnitIsDifference(bindings, table, FixedSeed, SelfEvolve, n);
    }
  }

  lemma AddedSize(before: set<nat>, n: nat)
    requires n !in before
    ensures |before + {n}| == |before| + 1 && before + {} == before
  {
  }

  lemma {:induction false} PositivesAreBetter(bindings: seq<Binding>, table: Table, n: nat)
    ensures Metrics.Positives(Metrics.LifetimeUnits(bindings, table, n)) == |Better(bindings, table, n)|
  {
    if n == 0 {
      NoneBetter(bindings, table);
    } else {
      var m := n - 1;
      PositivesAreBetter(bindings, table, m);
      NextPositives(bindings, table, m);
    }
  }

  lemma NoneBetter(bindings: seq<Binding>, table: Table)
    ensures Better(bindings, table, 0) == {}
  {
  }

  lemma NextPositives(bindings: seq<Binding>, table: Table, n: nat)
    requires Metrics.Positives(Metrics.LifetimeUnits(bindings, table, n)) == |Better(bindings, table, n)|
    ensures Metrics.Positives(Metrics.LifetimeUnits(bindings, table, n + 1)) == |Better(bindings, table, n + 1)|
  {
    NextBetter(bindings, table, n);
    AddedSize(Better(bindings, table, n), n);
    var unit := Unit(bindings, table, FixedSeed, SelfEvolve, n);
    if unit.Some? { PositiveSnoc(Metrics.LifetimeUnits(bindings, table, n), unit.value); }
  }

  /** LTE_SR is SelfEvolve's mean utility less FixedSeed's, CLU is SelfEvolve's, and LPI
      is the share of complete repetitions in which SelfEvolve did better; they exist
      exactly when some repetition is complete. */
  lemma LifetimeMeans(bindings: seq<Binding>, table: Table, n: nat)
    ensures var lifetime := Metrics.LifetimeOf(bindings, table, n);
            var own, other := Means(bindings, table, SelfEvolve, n), Means(bindings, table, FixedSeed, n);
            && |own| == |other|
            && (lifetime.Some? <==> own != [])
            && (lifetime.Some? ==>
                  && lifetime.value.lte == Mean(own) - Mean(other) && lifetime.value.clu == Mean(own)
                  && lifetime.value.lpi == |Better(bindings, table, n)| as real / |own| as real)
  {
    SumsDiffer(bindings, table, FixedSeed, SelfEvolve, n);
    SelfUnitsAre(bindings, table, n);
    PositivesAreBetter(bindings, table, n);
    if Metrics.LifetimeUnits(bindings, table, n) != [] {
      EffectIsDifference(bindings, table, FixedSeed, SelfEvolve, n);
    }
  }

  // ---- The comparisons ----

  /** The p-value: the tail at the estimate over its error, kept within the unit interval;
      without an error, whether the estimate is zero. */
  predicate IsPValue(num: Statistics.Numerics, p: real, estimate: real, error: real) {
    if error <= 0.000000000001 then
      p == if -0.000000000001 <= estimate <= 0.000000000001 then 1.0 else 0.0
    else
      var z := estimate / error;
      var t := num.tail(if z < 0.0 then -z else z);
      0.0 <= p <= 1.0 && (0.0 <= t <= 1.0 ==> p == t) && (t < 0.0 ==> p == 0.0) && (t > 1.0 ==> p == 1.0)
  }

  /** The variance of `n` units with these squared gaps between every two of them. */
  predicate IsVariance(v: real, n: nat, pairs: real)
    requires n > 0
  {
    Times(n, Times(n - 1, v)) == pairs && (n == 1 ==> v == 0.0)
  }

  ghost predicate Describes(c: Statistics.Comparison, units: seq<real>, num: Statistics.Numerics)
    requires units != []
  {
    && c.count == |units| && c.estimate == Mean(units)
    && (exists v :: IsVariance(v, |units|, PairSquares(units)) && c.standardError == num.sqrt(v / |units| as real))
    && c.ciLower == c.estimate - 1.96 * c.standardError && c.ciUpper == c.estimate + 1.96 * c.standardError
    && IsPValue(num, c.raw, c.estimate, c.standardError)
  }

  lemma EntryDescribes(units: seq<real>, pair: Statistics.Pair, num: Statistics.Numerics)
    requires units != []
    ensures Describes(Statistics.Entry(units, pair, num)[0], units, num)
  {
    VarianceIsPairs(units);
    assert IsVariance(Statistics.Variance(units), |units|, PairSquares(units));
  }

  /** Every raw comparison is the entry of one of the pairs. */
  lemma {:induction false} RawIsEntry(bindings: seq<Binding>, table: Table, n: nat, num: Statistics.Numerics, k: nat,
                                      i: nat) returns (l: nat)
    requires k <= 3 && i < |Statistics.Raw(bindings, table, n, num, k)|
    ensures l < k && Statistics.UnitsOf(bindings, table, n, Statistics.PAIRS[l]) != []
    ensures Statistics.Raw(bindings, table, n, num, k)[i] ==
            Statistics.Entry(Statistics.UnitsOf(bindings, table, n, Statistics.PAIRS[l]), Statistics.PAIRS[l], num)[0]
  {
    if i < |Statistics.Raw(bindings, table, n, num, k - 1)| {
      l := RawIsEntry(bindings, table, n, num, k - 1, i);
    } else {
      l := k - 1;
    }
  }

  /** Every comparison reported: its units, how they spread, and its effect as the
      treatment's mean utility less the reference's. */
  lemma ComparisonMeans(bindings: seq<Binding>, table: Table, n: nat, num: Statistics.Numerics,
                        comparisons: seq<Statistics.Comparison>, i: nat)
    requires Statistics.AdjustedFrom(comparisons, Statistics.Raw(bindings, table, n, num, 3)) && i < |comparisons|
    ensures var pair, units := comparisons[i].pair, Statistics.UnitsOf(bindings, table, n, comparisons[i].pair);
            var own := ArmMeans(bindings, table, pair.reference, pair.treatment, pair.treatment, n);
            var other := ArmMeans(bindings, table, pair.reference, pair.treatment, pair.reference, n);
            && pair in Statistics.PAIRS && units != [] && own != [] && other != []
            && Describes(comparisons[i], units, num)
            && comparisons[i].estimate == Mean(own) - Mean(other)
  {
    var raw := Statistics.Raw(bindings, table, n, num, 3);
    var l := RawIsEntry(bindings, table, n, num, 3, i);
    var pair := Statistics.PAIRS[l];
    var units := Statistics.UnitsOf(bindings, table, n, pair);
    EntryDescribes(units, pair, num);
    DescribesAdjusted(raw[i], comparisons[i], units, num);
    EffectIsDifference(bindings, table, pair.reference, pair.treatment, n);
  }

  lemma DescribesAdjusted(c: Statistics.Comparison, adjusted: Statistics.Comparison, units: seq<real>,
                          num: Statistics.Numerics)
    requires units != [] && Describes(c, units, num) && adjusted == c.(adjusted := adjusted.adjusted)
    ensures Describes(adjusted, units, num)
  {
  }

  /** A fault is a missing utility of either arm, or a blocked observation where both are
      there. */
  lemma FaultIs(bindings: seq<Binding>, table: Table, reference: Arm, treatment: Arm, seed: string, r: nat)
    requires Paired(bindings, reference, treatment, seed)
    ensures var a := Key(VariantOf(bindings, seed, reference).value, r);
            var b := Key(VariantOf(bindings, seed, treatment).value, r);
            var there := a in table && table[a].utility.Some? && b in table && table[b].utility.Some?;
            SeedFault(bindings, table, reference, treatment, seed, r) ==
            if !there then Some(Missing)
            else if table[a].blocked > 0.0 || table[b].blocked > 0.0 then Some(Blocked) else None
  {
  }

  /** The adjusted values reported are Holm's for the p-values reported beside them. */
  lemma AdjustedAreHolm(bindings: seq<Binding>, table: Table, n: nat, num: Statistics.Numerics,
                        comparisons: seq<Statistics.Comparison>, i: nat, alpha: real)
    requires Statistics.AdjustedFrom(comparisons, Statistics.Raw(bindings, table, n, num, 3))
    requires i < |comparisons| && alpha < 1.0
    ensures comparisons[i].adjusted <= alpha <==>
            forall J: set<nat> | i in J && Within(comparisons, J) :: SomeRejects(comparisons, J, alpha)
    ensures comparisons[i].raw <= comparisons[i].adjusted <= 1.0
  {
    var raw := Statistics.Raw(bindings, table, n, num, 3);
    var p := Statistics.PValues(raw);
    forall j | 0 <= j < |p| ensures 0.0 <= p[j] <= 1.0 && p[j] == comparisons[j].raw {
      var l := RawIsEntry(bindings, table, n, num, 3, j);
    }
    Holm.HolmRejectsExactly(p, i, alpha);
    Holm.AdjustedAtLeast(p, i);
    forall J: set<nat> | Within(comparisons, J)
      ensures Holm.BonferroniRejects(p, J, alpha) <==> SomeRejects(comparisons, J, alpha)
    {
      SameTests(p, comparisons, J, alpha);
    }
    assert forall J: set<nat> :: Within(comparisons, J) <==> Holm.Hypothesis(p, J);
  }

  ghost predicate Within(comparisons: seq<Statistics.Comparison>, J: set<nat>) {
    forall j | j in J :: j < |comparisons|
  }

  /** A comparison of the set has a p-value that, times the size of the set, is at most
      alpha. */
  ghost predicate SomeRejects(comparisons: seq<Statistics.Comparison>, J: set<nat>, alpha: real) {
    exists j :: j in J && j < |comparisons| && |J| as real * comparisons[j].raw <= alpha
  }

  lemma SameTests(p: seq<real>, comparisons: seq<Statistics.Comparison>, J: set<nat>, alpha: real)
    requires |p| == |comparisons| && forall j | 0 <= j < |p| :: p[j] == comparisons[j].raw
    ensures Holm.BonferroniRejects(p, J, alpha) <==> SomeRejects(comparisons, J, alpha)
  {
    if Holm.BonferroniRejects(p, J, alpha) {
      var j :| j in J && j < |p| && |J| as real * p[j] <= alpha;
      assert |J| as real * comparisons[j].raw <= alpha;
    }
    if SomeRejects(comparisons, J, alpha) {
      var j :| j in J && j < |comparisons| && |J| as real * comparisons[j].raw <= alpha;
      assert |J| as real * p[j] <= alpha;
    }
  }
}
