/** The metric provider and the statistics provider compute the same estimand from the
    same matched units, each in its own way. */
module EstimandAgreement {
  import opened MatchedUnits
  import Metrics = ScientificMetrics
  import Statistics = ScientificStatistics

  const LTE_PAIR := Statistics.Pair(SelfEvolve, FixedSeed)

  /** Without duplicates the first and the last observation of a key are the same one. */
  lemma {:induction false} TablesAgree(observations: seq<Observation>)
    requires Metrics.NoDuplicates(observations)
    ensures Metrics.FirstTable(observations) == Statistics.LastTable(observations)
  {
    if observations != [] {
      var front, last := observations[..|observations| - 1], observations[|observations| - 1];
      assert observations == front + [last];
      Metrics.OneMoreObservation(front, last);
      TablesAgree(front);
    }
  }

  lemma {:induction false} OneSelfPerUnit(bindings: seq<Binding>, table: Table, repetitions: nat)
    ensures |Metrics.SelfUnits(bindings, table, repetitions)| == |Metrics.LifetimeUnits(bindings, table, repetitions)|
  {
    if repetitions > 0 {
      OneSelfPerUnit(bindings, table, repetitions - 1);
      ExtendLength(Metrics.LifetimeUnits(bindings, table, repetitions - 1),
                   Unit(bindings, table, FixedSeed, SelfEvolve, repetitions - 1));
      ExtendLength(Metrics.SelfUnits(bindings, table, repetitions - 1),
                   Metrics.SelfUnit(bindings, table, repetitions - 1));
    }
  }

  /** The list has a comparison of the pair exactly when the pair has units, and it
      reports their mean and number. */
  ghost predicate Reports(comparisons: seq<Statistics.Comparison>, pair: Statistics.Pair, units: seq<real>) {
    && (units != [] ==> !Omits(comparisons, pair))
    && (forall i | 0 <= i < |comparisons| && comparisons[i].pair == pair ::
          units != [] && comparisons[i].estimate == Mean(units) && comparisons[i].count == |units|)
  }

  ghost predicate Omits(comparisons: seq<Statistics.Comparison>, pair: Statistics.Pair) {
    forall i | 0 <= i < |comparisons| :: comparisons[i].pair != pair
  }

  lemma ReportsJoined(a: seq<Statistics.Comparison>, b: seq<Statistics.Comparison>, pair: Statistics.Pair,
                      units: seq<real>)
    requires (Reports(a, pair, units) && Omits(b, pair)) || (Omits(a, pair) && Reports(b, pair, units))
    ensures Reports(a + b, pair, units)
  {
    if units != [] {
      if !Omits(a, pair) {
        var i :| 0 <= i < |a| && a[i].pair == pair;
        assert (a + b)[i] == a[i];
      } else {
        var i :| 0 <= i < |b| && b[i].pair == pair;
        assert (a + b)[|a| + i] == b[i];
      }
    }
  }

  lemma OmitsJoined(a: seq<Statistics.Comparison>, b: seq<Statistics.Comparison>, pair: Statistics.Pair)
    requires Omits(a, pair) && Omits(b, pair)
    ensures Omits(a + b, pair)
  {
  }

  lemma EntryReports(units: seq<real>, pair: Statistics.Pair, num: Statistics.Numerics, other: Statistics.Pair)
    ensures Reports(Statistics.Entry(units, pair, num), pair, units)
    ensures other != pair ==> Omits(Statistics.Entry(units, pair, num), other)
  {
    if units != [] { assert Statistics.Entry(units, pair, num)[0].pair == pair; }
  }

  lemma RawOmits(bindings: seq<Binding>, table: Table, repetitions: nat, num: Statistics.Numerics, k: nat, l: nat)
    requires k <= l < 3
    ensures Omits(Statistics.Raw(bindings, table, repetitions, num, k), Statistics.PAIRS[l])
  {
    if k > 0 {
      RawOmits(bindings, table, repetitions, num, k - 1, l);
      var last := Statistics.PAIRS[k - 1];
      EntryReports(Statistics.UnitsOf(bindings, table, repetitions, last), last, num, Statistics.PAIRS[l]);
      OmitsJoined(Statistics.Raw(bindings, table, repetitions, num, k - 1),
                  Statistics.Entry(Statistics.UnitsOf(bindings, table, repetitions, last), last, num),
                  Statistics.PAIRS[l]);
    }
  }

  /** Every pair is reported: with its units' mean and number, or left out without units. */
  lemma {:induction false} RawReports(bindings: seq<Binding>, table: Table, repetitions: nat, num: Statistics.Numerics,
                                      k: nat, l: nat)
    requires l < k <= 3
    ensures Reports(Statistics.Raw(bindings, table, repetitions, num, k), Statistics.PAIRS[l],
                    Statistics.UnitsOf(bindings, table, repetitions, Statistics.PAIRS[l]))
  {
    var before := Statistics.Raw(bindings, table, repetitions, num, k - 1);
    var last := Statistics.PAIRS[k - 1];
    var entry := Statistics.Entry(Statistics.UnitsOf(bindings, table, repetitions, last), last, num);
    EntryReports(Statistics.UnitsOf(bindings, table, repetitions, last), last, num, Statistics.PAIRS[l]);
    if l < k - 1 {
      RawReports(bindings, table, repetitions, num, k - 1, l);
    } else {
      RawOmits(bindings, table, repetitions, num, k - 1, l);
    }
    ReportsJoined(before, entry, Statistics.PAIRS[l],
                  Statistics.UnitsOf(bindings, table, repetitions, Statistics.PAIRS[l]));
  }

  lemma AdjustedReports(comparisons: seq<Statistics.Comparison>, raw: seq<Statistics.Comparison>,
                        pair: Statistics.Pair, units: seq<real>)
    requires Statistics.AdjustedFrom(comparisons, raw) && Reports(raw, pair, units)
    ensures Reports(comparisons, pair, units)
  {
    if units != [] {
      var i :| 0 <= i < |raw| && raw[i].pair == pair;
      assert comparisons[i].pair == pair;
    }
  }

  /** LTE_SR is the estimate of SelfEvolve against FixedSeed over the same units, and one
      exists exactly when the other does. */
  lemma TwoComputationsAgree(bindings: seq<Binding>, repetitions: nat, observations: seq<Observation>,
                             num: Statistics.Numerics, comparisons: seq<Statistics.Comparison>)
    requires Metrics.NoDuplicates(observations)
    requires var raw := Statistics.Raw(bindings, Statistics.LastTable(observations), repetitions, num, 3);
             Statistics.AdjustedFrom(comparisons, raw)
    ensures var lifetime := Metrics.LifetimeOf(bindings, Metrics.FirstTable(observations), repetitions);
            && (lifetime.Some? <==> !Omits(comparisons, LTE_PAIR))
            && forall i | 0 <= i < |comparisons| && comparisons[i].pair == LTE_PAIR ::
                 && lifetime.Some? && lifetime.value.lte == comparisons[i].estimate
                 && comparisons[i].count == |CompleteRepetitions(bindings, Metrics.FirstTable(observations), FixedSeed,
                                                                 SelfEvolve, repetitions)|
  {
    var table := Metrics.FirstTable(observations);
    TablesAgree(observations);
    OneSelfPerUnit(bindings, table, repetitions);
    RawReports(bindings, table, repetitions, num, 3, 1);
    var units := Statistics.UnitsOf(bindings, table, repetitions, LTE_PAIR);
    AdjustedReports(comparisons, Statistics.Raw(bindings, table, repetitions, num, 3), LTE_PAIR, units);
    if Seeds(bindings, FixedSeed, SelfEvolve) == {} {
      Statistics.NoSeeds(bindings, table, LTE_PAIR, repetitions);
    } else {
      SampleCount(bindings, table, FixedSeed, SelfEvolve, repetitions);
    }
  }
}
