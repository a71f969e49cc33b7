/** The claim gate: any missing or failing evidence blocks it. */
module ClaimGate {
  import opened Options
  import opened MatchedUnits
  import opened StudyPlan
  import Metrics = ScientificMetrics
  import Statistics = ScientificStatistics
  import Agreement = EstimandAgreement

  /** What a run is bound to. */
  datatype Digests = Digests(source: string, plan: string, protocol: string, binding: string)

  // ---- Receipts ----

  datatype Status = Pass | BlockedByEnvironment | Failed

  datatype LiveReceipt = LiveReceipt(
    v2: bool, status: Status, source: string, closure: Option<string>, t2b: Option<string>, protocol: string,
    matrixProfile: string, repetitions: int, claimEligible: bool, blockers: seq<string>,
    plan: Option<string>, binding: Option<string>, metrics: Option<string>)

  /** The rules of the receipt's constructor that depend on its status. */
  predicate Constructible(r: LiveReceipt) {
    && r.repetitions > 0
    && if r.status.Pass? then
         && r.closure.Some? && r.t2b.Some? && r.matrixProfile == "core-6" && r.repetitions >= 12
         && r.blockers == [] && r.claimEligible
         && (r.v2 ==> r.plan.Some? && r.binding.Some? && r.metrics.Some?)
       else !r.claimEligible
  }

  predicate IsBound(r: LiveReceipt, d: Digests, manifest: string) {
    && r.source == d.source && r.protocol == d.protocol && r.plan == Some(d.plan)
    && r.binding == Some(d.binding) && r.metrics == Some(manifest)
  }

  /** An evidence file: its fields, unless it is missing or does not parse. */
  datatype File<T> = Unreadable | Fields(fields: T)

  /** A PASS receipt is the one supplied, and one supplied that is sound and bound to the
      run is used as it is. */
  predicate UsesLive(d: Digests, manifest: string, path: Option<File<LiveReceipt>>, r: LiveReceipt) {
    && (r.status.Pass? ==> path == Some(Fields(r)) && Constructible(r) && IsBound(r, d, manifest))
    && ((&& path.Some? && path.value.Fields? && Constructible(path.value.fields)
         && IsBound(path.value.fields, d, manifest)) ==> r == path.value.fields)
    && (!r.status.Pass? ==> !r.claimEligible)
  }

  /** The receipt the gate uses: the one supplied when it is sound and bound to the run,
      else one of its own that is not PASS. */
  method LiveReceiptFor(d: Digests, p: Protocol, manifest: string, path: Option<File<LiveReceipt>>)
    returns (r: LiveReceipt)
    ensures UsesLive(d, manifest, path, r)
    ensures path != Some(Fields(r)) ==>
              && IsBound(r, d, manifest) && r.repetitions == p.repetitions
              && r.status == (if path.None? then BlockedByEnvironment else Failed)
              && r.matrixProfile == (if IsConfirmatory(p) then "core-6" else "compiled")
  {
    var profile := if IsConfirmatory(p) then "core-6" else "compiled";
    if path.None? {
      return LiveReceipt(true, BlockedByEnvironment, d.source, None, None, d.protocol, profile, p.repetitions, false,
                         ["live evidence receipt was not supplied"], Some(d.plan), Some(d.binding), Some(manifest));
    }
    if path.value.Fields? && Constructible(path.value.fields) && IsBound(path.value.fields, d, manifest) {
      return path.value.fields;
    }
    r := LiveReceipt(true, Failed, d.source, None, None, d.protocol, profile, p.repetitions, false,
                     ["live evidence was rejected"], Some(d.plan), Some(d.binding), Some(manifest));
  }

  /** TDP, ELCE, HPEF and GAG. */
  datatype Auxiliary = Auxiliary(tdp: real, elce: real, hpef: real, gag: real)

  datatype AuxiliaryEvidence = AuxiliaryEvidence(bound: Digests, values: Auxiliary)

  /** The values of a readable auxiliary file that is bound to the run. */
  function BoundValues(d: Digests, path: Option<File<AuxiliaryEvidence>>): Option<Auxiliary> {
    if path.Some? && path.value.Fields? && path.value.fields.bound == d then Some(path.value.fields.values) else None
  }

  method AuxiliaryFor(d: Digests, path: Option<File<AuxiliaryEvidence>>) returns (values: Option<Auxiliary>,
                      failed: bool)
    ensures values == BoundValues(d, path)
    ensures failed <==> path.Some? && values.None?
  {
    if path.None? { return None, false; }
    if path.value.Unreadable? || path.value.fields.bound != d { return None, true; }
    return Some(path.value.fields.values), false;
  }

  // ---- The gate ----

  datatype Aggregate = Aggregate(metricName: string, mean: real)

  datatype Report = Report(plan: string, protocol: string, observations: seq<Observation>, aggregates: seq<Aggregate>)

  /** Everything the gate looks at besides plan and report. */
  datatype Inputs = Inputs(
    baseline: bool, modelRequests: int, bindingsComplete: bool, bindingsReady: bool,
    live: Option<File<LiveReceipt>>, auxiliary: Option<File<AuxiliaryEvidence>>)

  datatype MetricReport = MetricReport(
    lifetime: Option<Metrics.Lifetime>, auxiliary: Option<Auxiliary>, blockers: set<Metrics.Blocker>)
  {
    /** Nothing of the seven estimands is missing, and there is no blocker. */
    predicate Eligible() { lifetime.Some? && auxiliary.Some? && blockers == {} }
  }

  datatype StatisticalReport = StatisticalReport(
    comparisons: seq<Statistics.Comparison>, missing: bool, blockers: set<Statistics.Blocker>)
  {
    predicate Eligible() { !missing && blockers == {} }
  }

  datatype Result = Result(metrics: MetricReport, statistics: StatisticalReport, live: LiveReceipt, eligible: bool)

  function BlockedTotal(aggregates: seq<Aggregate>): real {
    if aggregates == [] then 0.0
    else
      var last := aggregates[|aggregates| - 1];
      BlockedTotal(aggregates[..|aggregates| - 1]) + if last.metricName == "task_blocked_total" then last.mean else 0.0
  }

  /** The means of the aggregates of that name, added up. */
  function NamedSum(aggregates: seq<Aggregate>, name: string): real {
    if aggregates == [] then 0.0
    else (if aggregates[0].metricName == name then aggregates[0].mean else 0.0) + NamedSum(aggregates[1..], name)
  }

  lemma {:induction false} NamedSumConcat(a: seq<Aggregate>, b: seq<Aggregate>, name: string)
    ensures NamedSum(a + b, name) == NamedSum(a, name) + NamedSum(b, name)
  {
    if a == [] {
      assert a + b == b;
    } else {
      NamedSumConcat(a[1..], b, name);
      assert (a + b)[1..] == a[1..] + b;
    }
  }

  lemma {:induction false} NamedSumIs(aggregates: seq<Aggregate>)
    ensures BlockedTotal(aggregates) == NamedSum(aggregates, "task_blocked_total")
  {
    if aggregates != [] {
      var front, last := aggregates[..|aggregates| - 1], aggregates[|aggregates| - 1];
      NamedSumIs(front);
      NamedSumConcat(front, [last], "task_blocked_total");
      assert aggregates == front + [last] && [last][1..] == [];
    }
  }

  method SumBlocked(aggregates: seq<Aggregate>) returns (total: real)
    ensures total == BlockedTotal(aggregates)
  {
    total := 0.0;
    for i := 0 to |aggregates|
      invariant total == BlockedTotal(aggregates[..i])
    {
      assert aggregates[..i + 1][..i] == aggregates[..i];
      if aggregates[i].metricName == "task_blocked_total" { total := total + aggregates[i].mean; }
    }
    assert aggregates[..|aggregates|] == aggregates;
  }

  /** What the two reports say about the observations. */
  ghost predicate Reported(p: Protocol, observations: seq<Observation>, num: Statistics.Numerics,
                           m: MetricReport, s: StatisticalReport) {
    var bindings := Compile(p.variants);
    var first, last := Metrics.FirstTable(observations), Statistics.LastTable(observations);
    && m.lifetime == Metrics.LifetimeOf(bindings, first, p.repetitions)
    && Metrics.BlockersAre(bindings, observations, p.repetitions, m.blockers)
    && Statistics.AdjustedFrom(s.comparisons, Statistics.Raw(bindings, last, p.repetitions, num, 3))
    && (s.missing <==> Statistics.UnitsOf(bindings, last, p.repetitions, Statistics.PAIRS[1]) == [])
    && Statistics.BlockersAre(bindings, last, p.repetitions, s.blockers)
  }

  /** The conditions of the gate. */
  predicate Passes(p: Protocol, aggregates: seq<Aggregate>, inputs: Inputs, r: Result) {
    && inputs.baseline && IsConfirmatory(p) && inputs.bindingsComplete && inputs.bindingsReady
    && inputs.modelRequests > 0 && (inputs.auxiliary.Some? ==> r.metrics.auxiliary.Some?)
    && r.metrics.Eligible() && r.statistics.Eligible()
    && r.live.status.Pass? && r.live.claimEligible && BlockedTotal(aggregates) <= 0.0
  }

  method ComputeReports(p: Protocol, observations: seq<Observation>, auxiliary: Option<Auxiliary>,
                        num: Statistics.Numerics)
    returns (metrics: MetricReport, statistics: StatisticalReport)
    ensures Reported(p, observations, num, metrics, statistics) && metrics.auxiliary == auxiliary
  {
    var bindings := Compile(p.variants);
    var lifetime, blockers := Metrics.Compute(bindings, p.repetitions, observations);
    metrics := MetricReport(lifetime, auxiliary, blockers);
    var comparisons, missing, against := Statistics.Compute(bindings, p.repetitions, observations, num);
    statistics := StatisticalReport(comparisons, missing, against);
  }

  /** Collects the reasons against the claim. */
  method NoReasons(p: Protocol, aggregates: seq<Aggregate>, inputs: Inputs, failed: bool, metrics: MetricReport,
                   statistics: StatisticalReport, live: LiveReceipt) returns (eligible: bool)
    requires failed <==> inputs.auxiliary.Some? && metrics.auxiliary.None?
    ensures eligible <==> Passes(p, aggregates, inputs, Result(metrics, statistics, live, eligible))
  {
    var reasons: seq<string> := [];
    if !inputs.baseline { reasons := reasons + ["mode_is_not_model_backed_baseline"]; }
    if !IsConfirmatory(p) { reasons := reasons + ["study_matrix_is_not_frozen_confirmatory_core6"]; }
    if !inputs.bindingsComplete { reasons := reasons + ["evolution_stage_bindings_incomplete"]; }
    if !inputs.bindingsReady { reasons := reasons + ["evolution_stage_bindings_not_scientifically_ready"]; }
    if inputs.modelRequests <= 0 { reasons := reasons + ["no_model_request_evidence"]; }
    if failed { reasons := reasons + ["auxiliary_evidence"]; }
    if !metrics.Eligible() { reasons := reasons + ["metric"]; }
    if !statistics.Eligible() { reasons := reasons + ["statistics"]; }
    if !live.status.Pass? || !live.claimEligible { reasons := reasons + ["live_evidence"]; }
    var total := SumBlocked(aggregates);
    if total > 0.0 { reasons := reasons + ["task_dependency_blocking_present"]; }
    eligible := reasons == [];
  }

  /** `manifest` stands for the digest of the metric report, `num` for square root and
      normal tail.  None is the error of a report that is not bound to the plan. */
  method Evaluate(p: Protocol, d: Digests, report: Report, inputs: Inputs,
                  manifest: MetricReport -> string, num: Statistics.Numerics)
    returns (result: Option<Result>)
    ensures result.Some? <==> report.plan == d.plan && report.protocol == d.protocol
    ensures result.Some? ==> Reported(p, report.observations, num, result.value.metrics, result.value.statistics)
    ensures result.Some? ==> result.value.metrics.auxiliary == BoundValues(d, inputs.auxiliary)
    ensures result.Some? ==> var r := result.value;
              && UsesLive(d, manifest(r.metrics), inputs.live, r.live)
              && (r.eligible <==> Passes(p, report.aggregates, inputs, r))
  {
    var values, failed := AuxiliaryFor(d, inputs.auxiliary);
    if report.plan != d.plan || report.protocol != d.protocol { return None; }
    var metrics, statistics := ComputeReports(p, report.observations, values, num);
    var live := LiveReceiptFor(d, p, manifest(metrics), inputs.live);
    var eligible := NoReasons(p, report.aggregates, inputs, failed, metrics, statistics, live);
    result := Some(Result(metrics, statistics, live, eligible));
  }

  // ---- What an open gate means ----

  /** The arm was observed in the repetition, for the seed, with a utility and unblocked. */
  predicate ObservedUnblocked(table: Table, arm: Arm, seed: string, repetition: nat) {
    var key := Key(CoreId(arm, seed), repetition);
    key in table && table[key].utility.Some? && table[key].blocked <= 0.0
  }

  lemma CorePaired(p: Protocol, l: nat, seed: string)
    requires IsConfirmatory(p) && l < 3 && IsCoreSeed(seed)
    ensures Statistics.IsPaired(Compile(p.variants), Statistics.PAIRS[l], "Seed-" + seed)
    ensures VariantOf(Compile(p.variants), "Seed-" + seed, Statistics.PAIRS[l].reference) ==
            Some(CoreId(Statistics.PAIRS[l].reference, seed))
    ensures VariantOf(Compile(p.variants), "Seed-" + seed, Statistics.PAIRS[l].treatment) ==
            Some(CoreId(Statistics.PAIRS[l].treatment, seed))
  {
    SeedsDiffer();
    CoreMatrix(p, "Seed-" + seed, Statistics.PAIRS[l].reference);
    CoreMatrix(p, "Seed-" + seed, Statistics.PAIRS[l].treatment);
  }

  lemma CleanPairObserved(p: Protocol, table: Table, l: nat, seed: string, n: nat)
    requires IsConfirmatory(p) && l < 3 && IsCoreSeed(seed) && n < p.repetitions
    requires Statistics.Clean(Compile(p.variants), table, p.repetitions)
    ensures ObservedUnblocked(table, Statistics.PAIRS[l].reference, seed, n)
    ensures ObservedUnblocked(table, Statistics.PAIRS[l].treatment, seed, n)
  {
    var bindings, pair := Compile(p.variants), Statistics.PAIRS[l];
    CorePaired(p, l, seed);
    assert Statistics.PairsComplete(bindings, table, "Seed-" + seed, 3, p.repetitions);
    assert Statistics.SeedComplete(bindings, table, pair, "Seed-" + seed, p.repetitions);
    assert SeedDelta(bindings, table, pair.reference, pair.treatment, "Seed-" + seed, n).Some?;
  }

  lemma CleanArmObserved(p: Protocol, table: Table, arm: Arm, seed: string, n: nat)
    requires IsConfirmatory(p) && IsCoreSeed(seed) && n < p.repetitions
    requires Statistics.Clean(Compile(p.variants), table, p.repetitions)
    ensures ObservedUnblocked(table, arm, seed, n)
  {
    CleanPairObserved(p, table, 0, seed, n);
    CleanPairObserved(p, table, 1, seed, n);
  }

  lemma {:induction false} AllComplete(bindings: seq<Binding>, table: Table, pair: Statistics.Pair, n: nat)
    requires Seeds(bindings, pair.reference, pair.treatment) != {}
    requires forall r | 0 <= r < n :: Complete(bindings, table, pair.reference, pair.treatment, r)
    ensures |Statistics.UnitsOf(bindings, table, n, pair)| == n
  {
    if n > 0 {
      AllComplete(bindings, table, pair, n - 1);
      UnitExists(bindings, table, pair.reference, pair.treatment, n - 1);
      ExtendLength(Statistics.UnitsOf(bindings, table, n - 1, pair),
                   Unit(bindings, table, pair.reference, pair.treatment, n - 1));
    }
  }

  lemma CleanPairUnits(p: Protocol, table: Table, l: nat)
    requires IsConfirmatory(p) && l < 3 && Statistics.Clean(Compile(p.variants), table, p.repetitions)
    ensures |Statistics.UnitsOf(Compile(p.variants), table, p.repetitions, Statistics.PAIRS[l])| == 12
  {
    var bindings, pair := Compile(p.variants), Statistics.PAIRS[l];
    SeedsArePaired(bindings, pair.reference, pair.treatment);
    CorePaired(p, l, "C");
    assert "Seed-" + "C" in Seeds(bindings, pair.reference, pair.treatment);
    forall r | 0 <= r < p.repetitions ensures Complete(bindings, table, pair.reference, pair.treatment, r) {
      forall s | s in Seeds(bindings, pair.reference, pair.treatment)
        ensures SeedDelta(bindings, table, pair.reference, pair.treatment, s, r).Some?
      {
        assert Statistics.PairsComplete(bindings, table, s, 3, p.repetitions);
        assert Statistics.IsPaired(bindings, pair, s);
        assert Statistics.SeedComplete(bindings, table, pair, s, p.repetitions);
      }
    }
    AllComplete(bindings, table, pair, p.repetitions);
  }

  /** With units for every pair there is one comparison of each, in order. */
  lemma RawIsFull(bindings: seq<Binding>, table: Table, n: nat, num: Statistics.Numerics)
    requires forall l | 0 <= l < 3 :: Statistics.UnitsOf(bindings, table, n, Statistics.PAIRS[l]) != []
    ensures var raw := Statistics.Raw(bindings, table, n, num, 3);
            |raw| == 3 && forall l | 0 <= l < 3 ::
              var units := Statistics.UnitsOf(bindings, table, n, Statistics.PAIRS[l]);
              raw[l].pair == Statistics.PAIRS[l] && raw[l].count == |units| && raw[l].estimate == Mean(units)
  {
    var raw := Statistics.Raw(bindings, table, n, num, 3);
    var e0 := Statistics.Entry(Statistics.UnitsOf(bindings, table, n, Statistics.PAIRS[0]), Statistics.PAIRS[0], num);
    var e1 := Statistics.Entry(Statistics.UnitsOf(bindings, table, n, Statistics.PAIRS[1]), Statistics.PAIRS[1], num);
    var e2 := Statistics.Entry(Statistics.UnitsOf(bindings, table, n, Statistics.PAIRS[2]), Statistics.PAIRS[2], num);
    assert Statistics.Raw(bindings, table, n, num, 0) == [];
    assert Statistics.Raw(bindings, table, n, num, 1) == [] + e0;
    assert Statistics.Raw(bindings, table, n, num, 2) == [] + e0 + e1;
    assert raw == [] + e0 + e1 + e2;
    assert raw == [e0[0], e1[0], e2[0]];
  }

  /** An open gate means: the Core-6 matrix; no duplicate observation, and every arm
      observed unblocked for both seeds in all twelve repetitions; one comparison of each
      pair of arms over the twelve repetitions; all seven estimands, with LTE_SR equal to
      the statistical estimate and the auxiliary four those of a supplied file bound to
      the run's digests; and a supplied PASS receipt bound to them. */
  lemma OpenGateMeans(p: Protocol, d: Digests, report: Report, inputs: Inputs, manifest: MetricReport -> string,
                      num: Statistics.Numerics, r: Result)
    requires Reported(p, report.observations, num, r.metrics, r.statistics)
    requires UsesLive(d, manifest(r.metrics), inputs.live, r.live)
    requires r.metrics.auxiliary == BoundValues(d, inputs.auxiliary)
    requires Passes(p, report.aggregates, inputs, r)
    ensures Metrics.NoDuplicates(report.observations)
    ensures forall arm, seed, n: nat | IsCoreSeed(seed) && n < 12 ::
              ObservedUnblocked(Metrics.FirstTable(report.observations), arm, seed, n)
    ensures |r.statistics.comparisons| == 3
    ensures forall l | 0 <= l < 3 ::
              r.statistics.comparisons[l].pair == Statistics.PAIRS[l] && r.statistics.comparisons[l].count == 12
    ensures r.metrics.lifetime.Some? && r.metrics.auxiliary.Some?
    ensures r.metrics.lifetime.value.lte == r.statistics.comparisons[1].estimate
    ensures inputs.auxiliary == Some(Fields(AuxiliaryEvidence(d, r.metrics.auxiliary.value)))
    ensures inputs.live == Some(Fields(r.live)) && SoundPass(r.live, d, manifest(r.metrics))
    ensures inputs.baseline && inputs.bindingsComplete && inputs.bindingsReady && inputs.modelRequests > 0
    ensures NamedSum(report.aggregates, "task_blocked_total") <= 0.0
  {
    NamedSumIs(report.aggregates);
    var bindings, table := Compile(p.variants), Statistics.LastTable(report.observations);
    Metrics.NoBlockerExactly(bindings, report.observations, p.repetitions, r.metrics.blockers);
    Statistics.NoBlockerExactly(bindings, table, p.repetitions, r.statistics.blockers);
    Agreement.TablesAgree(report.observations);
    forall arm, seed, n: nat | IsCoreSeed(seed) && n < 12 ensures ObservedUnblocked(table, arm, seed, n) {
      CleanArmObserved(p, table, arm, seed, n);
    }
    forall l | 0 <= l < 3
      ensures |Statistics.UnitsOf(bindings, table, p.repetitions, Statistics.PAIRS[l])| == 12
    {
      CleanPairUnits(p, table, l);
    }
    RawIsFull(bindings, table, p.repetitions, num);
  }

  // ---- When the gate opens ----

  /** A PASS receipt with nothing against it, bound to the run's five digests. */
  predicate SoundPass(r: LiveReceipt, d: Digests, manifest: string) {
    && r.status.Pass? && r.claimEligible && r.blockers == []
    && r.closure.Some? && r.t2b.Some? && r.matrixProfile == "core-6" && r.repetitions >= 12
    && r.source == d.source && r.protocol == d.protocol && r.plan == Some(d.plan)
    && r.binding == Some(d.binding) && r.metrics == Some(manifest)
  }

  lemma SoundPassExactly(r: LiveReceipt, d: Digests, manifest: string)
    ensures SoundPass(r, d, manifest) <==>
            r.status.Pass? && r.claimEligible && Constructible(r) && IsBound(r, d, manifest)
  {
  }

  /** Every observation the claim needs is there once and unblocked. */
  ghost predicate Complete12(observations: seq<Observation>) {
    && Metrics.NoDuplicates(observations)
    && forall arm, seed, n: nat | IsCoreSeed(seed) && n < 12 ::
         ObservedUnblocked(Metrics.FirstTable(observations), arm, seed, n)
  }

  /** Everything the claim needs, said of what was supplied. */
  ghost predicate Earned(p: Protocol, d: Digests, report: Report, inputs: Inputs, manifest: string) {
    && inputs.baseline && inputs.bindingsComplete && inputs.bindingsReady && inputs.modelRequests > 0
    && IsConfirmatory(p) && Complete12(report.observations)
    && NamedSum(report.aggregates, "task_blocked_total") <= 0.0
    && inputs.auxiliary.Some? && inputs.auxiliary.value.Fields? && inputs.auxiliary.value.fields.bound == d
    && inputs.live.Some? && inputs.live.value.Fields? && SoundPass(inputs.live.value.fields, d, manifest)
  }

  lemma CorePairHasDelta(p: Protocol, table: Table, pair: Statistics.Pair, s: string, n: nat)
    requires IsConfirmatory(p) && n < 12 && Statistics.IsPaired(Compile(p.variants), pair, s)
    requires forall arm, seed, m: nat | IsCoreSeed(seed) && m < 12 :: ObservedUnblocked(table, arm, seed, m)
    ensures SeedDelta(Compile(p.variants), table, pair.reference, pair.treatment, s, n).Some?
  {
    CoreMatrix(p, s, pair.reference);
    CoreMatrix(p, s, pair.treatment);
    var seed := if s == "Seed-" + "C" then "C" else "X";
    assert ObservedUnblocked(table, pair.reference, seed, n) && ObservedUnblocked(table, pair.treatment, seed, n);
  }

  lemma CompleteIsClean(p: Protocol, table: Table)
    requires IsConfirmatory(p)
    requires forall arm, seed, n: nat | IsCoreSeed(seed) && n < 12 :: ObservedUnblocked(table, arm, seed, n)
    ensures Statistics.Clean(Compile(p.variants), table, p.repetitions)
  {
    forall s, l | 0 <= l < 3 && Statistics.IsPaired(Compile(p.variants), Statistics.PAIRS[l], s)
      ensures Statistics.SeedComplete(Compile(p.variants), table, Statistics.PAIRS[l], s, p.repetitions)
    {
      forall n | 0 <= n < p.repetitions
        ensures SeedDelta(Compile(p.variants), table, Statistics.PAIRS[l].reference, Statistics.PAIRS[l].treatment, s,
                          n).Some?
      {
        CorePairHasDelta(p, table, Statistics.PAIRS[l], s, n);
      }
    }
  }

  lemma CompleteIsWhole(p: Protocol, table: Table)
    requires IsConfirmatory(p)
    requires forall arm, seed, n: nat | IsCoreSeed(seed) && n < 12 :: ObservedUnblocked(table, arm, seed, n)
    ensures Metrics.PairsAreWhole(Compile(p.variants))
    ensures Metrics.NothingMissing(Compile(p.variants), table, p.repetitions)
  {
    forall s ensures VariantOf(Compile(p.variants), s, FixedSeed).Some? <==>
                     VariantOf(Compile(p.variants), s, SelfEvolve).Some? {
      CoreMatrix(p, s, FixedSeed);
      CoreMatrix(p, s, SelfEvolve);
    }
    SeedsArePaired(Compile(p.variants), FixedSeed, SelfEvolve);
    forall n, s | 0 <= n < p.repetitions && s in Seeds(Compile(p.variants), FixedSeed, SelfEvolve)
      ensures SeedDelta(Compile(p.variants), table, FixedSeed, SelfEvolve, s, n).Some?
    {
      CorePairHasDelta(p, table, Statistics.PAIRS[1], s, n);
    }
  }

  /** The reports of complete observations are eligible, given the auxiliary values. */
  lemma CompleteIsEligible(p: Protocol, observations: seq<Observation>, num: Statistics.Numerics, m: MetricReport,
                           s: StatisticalReport)
    requires IsConfirmatory(p) && Complete12(observations) && Reported(p, observations, num, m, s)
    requires m.auxiliary.Some?
    ensures m.Eligible() && s.Eligible()
  {
    var bindings, table := Compile(p.variants), Metrics.FirstTable(observations);
    Agreement.TablesAgree(observations);
    CompleteIsClean(p, table);
    CompleteIsWhole(p, table);
    CleanPairUnits(p, table, 1);
    Agreement.OneSelfPerUnit(bindings, table, p.repetitions);
    Metrics.NoBlockerExactly(bindings, observations, p.repetitions, m.blockers);
    Statistics.NoBlockerExactly(bindings, table, p.repetitions, s.blockers);
  }

  /** The gate is open exactly when everything the claim needs was supplied. */
  lemma GateExact(p: Protocol, d: Digests, report: Report, inputs: Inputs, manifest: MetricReport -> string,
                  num: Statistics.Numerics, r: Result)
    requires Reported(p, report.observations, num, r.metrics, r.statistics)
    requires UsesLive(d, manifest(r.metrics), inputs.live, r.live)
    requires r.metrics.auxiliary == BoundValues(d, inputs.auxiliary)
    requires r.eligible <==> Passes(p, report.aggregates, inputs, r)
    ensures r.eligible <==> Earned(p, d, report, inputs, manifest(r.metrics))
  {
    if r.eligible {
      OpenGateMeans(p, d, report, inputs, manifest, num, r);
    }
    if Earned(p, d, report, inputs, manifest(r.metrics)) {
      SoundPassExactly(inputs.live.value.fields, d, manifest(r.metrics));
      NamedSumIs(report.aggregates);
      CompleteIsEligible(p, report.observations, num, r.metrics, r.statistics);
    }
  }
}
