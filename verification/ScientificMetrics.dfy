/** The metric provider's own computation of the lifetime estimands. */
module ScientificMetrics {
  import opened Options
  import opened MatchedUnits

  /** LTE_SR, CLU and LPI. */
  datatype Lifetime = Lifetime(lte: real, clu: real, lpi: real)

  /** What stands against the report. */
  datatype Blocker =
    | IncompletePair(seed: string)
    | DuplicateObservation(key: Key)
    | Unpaired(fault: Fault, seed: string, repetition: nat)
    | IncompleteUnit(repetition: nat, expected: set<string>, actual: set<string>)

  // ---- Observations ----

  /** The first observation of a variant and repetition counts. */
  function FirstTable(observations: seq<Observation>): Table {
    if observations == [] then map[]
    else
      var before, last := FirstTable(observations[..|observations| - 1]), observations[|observations| - 1];
      if last.At() in before then before else before[last.At() := last.metrics]
  }

  ghost predicate NoDuplicates(observations: seq<Observation>) {
    forall i, j | 0 <= i < j < |observations| :: observations[i].At() != observations[j].At()
  }

  ghost predicate Duplicated(observations: seq<Observation>, key: Key) {
    exists i, j :: 0 <= i < j < |observations| && observations[i].At() == observations[j].At() == key
  }

  lemma {:induction false} FirstTableKeys(observations: seq<Observation>, key: Key)
    ensures key in FirstTable(observations) <==> exists i :: 0 <= i < |observations| && observations[i].At() == key
  {
    if observations != [] {
      var front := observations[..|observations| - 1];
      FirstTableKeys(front, key);
      assert forall i | 0 <= i < |front| :: observations[i] == front[i];
    }
  }

  /** The table holds the first observation of every key. */
  lemma {:induction false} FirstCounts(observations: seq<Observation>, i: nat)
    requires i < |observations|
    requires forall j | 0 <= j < i :: observations[j].At() != observations[i].At()
    ensures observations[i].At() in FirstTable(observations)
    ensures FirstTable(observations)[observations[i].At()] == observations[i].metrics
  {
    var front := observations[..|observations| - 1];
    if i < |observations| - 1 {
      FirstCounts(front, i);
    } else {
      FirstTableKeys(front, observations[i].At());
    }
  }

  lemma OneMoreObservation(observations: seq<Observation>, o: Observation)
    ensures NoDuplicates(observations + [o]) <==>
            NoDuplicates(observations) && o.At() !in FirstTable(observations)
  {
    FirstTableKeys(observations, o.At());
    var all := observations + [o];
    assert forall i | 0 <= i < |observations| :: all[i] == observations[i];
    if NoDuplicates(all) {
      forall i, j | 0 <= i < j < |observations| ensures observations[i].At() != observations[j].At() {
        assert all[i].At() != all[j].At();
      }
      forall i | 0 <= i < |observations| ensures observations[i].At() != o.At() {
        assert all[i].At() != all[|observations|].At();
      }
    }
  }

  lemma DuplicatedSnoc(observations: seq<Observation>, o: Observation, key: Key)
    ensures Duplicated(observations + [o], key) <==>
            Duplicated(observations, key) || (key == o.At() && key in FirstTable(observations))
  {
    var all := observations + [o];
    FirstTableKeys(observations, key);
    if i, j :| 0 <= i < j < |all| && all[i].At() == all[j].At() == key {
      assert all[i] == observations[i];
    }
    if i, j :| 0 <= i < j < |observations| && observations[i].At() == observations[j].At() == key {
      assert all[i].At() == all[j].At() == key;
    }
    if i :| 0 <= i < |observations| && observations[i].At() == key && key == o.At() {
      assert all[i].At() == all[|observations|].At() == key;
    }
  }

  ghost predicate DuplicatesOf(observations: seq<Observation>, blockers: set<Blocker>) {
    forall b :: b in blockers <==> b.DuplicateObservation? && Duplicated(observations, b.key)
  }

  method Tabulate(observations: seq<Observation>) returns (table: Table, blockers: set<Blocker>)
    ensures table == FirstTable(observations)
    ensures DuplicatesOf(observations, blockers)
  {
    table, blockers := map[], {};
    for k := 0 to |observations|
      invariant table == FirstTable(observations[..k])
      invariant DuplicatesOf(observations[..k], blockers)
    {
      var o := observations[k];
      assert observations[..k + 1] == observations[..k] + [o] && observations[..k + 1][..k] == observations[..k];
      forall key { DuplicatedSnoc(observations[..k], o, key); }
      if o.At() in table {
        blockers := blockers + {DuplicateObservation(o.At())};
        continue;
      }
      table := table[o.At() := o.metrics];
    }
    assert observations[..|observations|] == observations;
  }

  // ---- One repetition ----

  function Selfs(bindings: seq<Binding>, table: Table, seeds: set<string>, repetition: nat): map<string, real> {
    map s | s in seeds && SeedDelta(bindings, table, FixedSeed, SelfEvolve, s, repetition).Some? ::
      UtilityAt(table, VariantOf(bindings, s, SelfEvolve).value, repetition).value
  }

  lemma OneMoreSeed(bindings: seq<Binding>, table: Table, done: set<string>, seed: string, repetition: nat)
    ensures var d, r := SeedDelta(bindings, table, FixedSeed, SelfEvolve, seed, repetition), repetition;
            && Deltas(bindings, table, FixedSeed, SelfEvolve, done + {seed}, r) ==
               (var before := Deltas(bindings, table, FixedSeed, SelfEvolve, done, r);
                if d.None? then before else before[seed := d.value])
            && Selfs(bindings, table, done + {seed}, r) ==
               (var before := Selfs(bindings, table, done, r);
                if d.None? then before
                else before[seed := UtilityAt(table, VariantOf(bindings, seed, SelfEvolve).value, r).value])
  {
  }

  /** One seed of one repetition: the difference of its pair, and the treatment's own
      utility. */
  method MatchSeed(bindings: seq<Binding>, groups: Groups, table: Table, seed: string, repetition: nat)
    returns (delta: Option<real>, own: Option<real>, fault: Option<Fault>)
    requires GroupsAre(groups, bindings, {FixedSeed, SelfEvolve})
    requires Paired(bindings, FixedSeed, SelfEvolve, seed)
    ensures delta == SeedDelta(bindings, table, FixedSeed, SelfEvolve, seed, repetition)
    ensures own == UtilityAt(table, VariantOf(bindings, seed, SelfEvolve).value, repetition)
    ensures delta.Some? ==> own.Some?
    ensures fault == SeedFault(bindings, table, FixedSeed, SelfEvolve, seed, repetition)
    ensures fault.Some? <==> delta.None?
  {
    assert VariantIn(groups, seed, FixedSeed) == VariantOf(bindings, seed, FixedSeed);
    assert VariantIn(groups, seed, SelfEvolve) == VariantOf(bindings, seed, SelfEvolve);
    var fixedVariant, selfVariant := groups[seed][FixedSeed], groups[seed][SelfEvolve];
    var fixed := UtilityAt(table, fixedVariant, repetition);
    own := UtilityAt(table, selfVariant, repetition);
    if fixed.None? || own.None? { return None, own, Some(Missing); }
    if table[Key(fixedVariant, repetition)].blocked > 0.0 || table[Key(selfVariant, repetition)].blocked > 0.0 {
      return None, own, Some(Blocked);
    }
    delta, fault := Some(own.value - fixed.value), None;
  }

  /** The faults of the seeds done in one repetition. */
  ghost predicate FaultsAt(bindings: seq<Binding>, table: Table, done: set<string>, repetition: nat,
                           blockers: set<Blocker>) {
    forall b :: b in blockers <==> && b.Unpaired? && b.repetition == repetition && b.seed in done
                                   && Faulty(bindings, table, b)
  }

  ghost predicate Faulty(bindings: seq<Binding>, table: Table, b: Blocker) {
    b.Unpaired? && SeedFault(bindings, table, FixedSeed, SelfEvolve, b.seed, b.repetition) == Some(b.fault)
  }

  method MatchRepetition(bindings: seq<Binding>, groups: Groups, table: Table, expected: set<string>, repetition: nat)
    returns (deltas: map<string, real>, selfs: map<string, real>, blockers: set<Blocker>)
    requires GroupsAre(groups, bindings, {FixedSeed, SelfEvolve})
    requires expected == Seeds(bindings, FixedSeed, SelfEvolve)
    ensures deltas == Deltas(bindings, table, FixedSeed, SelfEvolve, expected, repetition)
    ensures selfs == Selfs(bindings, table, expected, repetition)
    ensures FaultsAt(bindings, table, expected, repetition, blockers)
  {
    deltas, selfs, blockers := map[], map[], {};
    var remaining := expected;
    ghost var done := {};
    SeedsArePaired(bindings, FixedSeed, SelfEvolve);
    while remaining != {}
      invariant done + remaining == expected
      invariant deltas == Deltas(bindings, table, FixedSeed, SelfEvolve, done, repetition)
      invariant selfs == Selfs(bindings, table, done, repetition)
      invariant FaultsAt(bindings, table, done, repetition, blockers)
      decreases remaining
    {
      var seed :| seed in remaining;
      var delta, own, fault := MatchSeed(bindings, groups, table, seed, repetition);
      OneMoreSeed(bindings, table, done, seed, repetition);
      remaining := remaining - {seed};
      done := done + {seed};
      if delta.None? {
        blockers := blockers + {Unpaired(fault.value, seed, repetition)};
      } else {
        deltas := deltas[seed := delta.value];
        selfs := selfs[seed := own.value];
      }
    }
    assert done == expected;
  }

  // ---- The estimands ----

  ghost function SelfUnit(bindings: seq<Binding>, table: Table, repetition: nat): Option<real> {
    var seeds := Seeds(bindings, FixedSeed, SelfEvolve);
    if Unit(bindings, table, FixedSeed, SelfEvolve, repetition).None? then None
    else Some(Total(Selfs(bindings, table, seeds, repetition)) / |seeds| as real)
  }

  ghost function SelfUnits(bindings: seq<Binding>, table: Table, repetitions: nat): seq<real> {
    if repetitions == 0 then []
    else
      Extend(SelfUnits(bindings, table, repetitions - 1), SelfUnit(bindings, table, repetitions - 1))
  }

  function Positives(values: seq<real>): nat {
    if values == [] then 0
    else Positives(values[..|values| - 1]) + if values[|values| - 1] > 0.0 then 1 else 0
  }

  ghost function LifetimeUnits(bindings: seq<Binding>, table: Table, repetitions: nat): seq<real> {
    Units(bindings, table, FixedSeed, SelfEvolve, repetitions)
  }

  ghost function LifetimeOf(bindings: seq<Binding>, table: Table, repetitions: nat): Option<Lifetime> {
    var units, selfs := LifetimeUnits(bindings, table, repetitions), SelfUnits(bindings, table, repetitions);
    if units == [] || selfs == [] then None
    else Some(Lifetime(Mean(units), Mean(selfs), Positives(units) as real / |units| as real))
  }

  ghost predicate HalfPaired(bindings: seq<Binding>, seed: string) {
    VariantOf(bindings, seed, FixedSeed).Some? != VariantOf(bindings, seed, SelfEvolve).Some?
  }

  ghost predicate IncompletePairsOf(bindings: seq<Binding>, blockers: set<Blocker>) {
    forall b :: b in blockers <==> b.IncompletePair? && HalfPaired(bindings, b.seed)
  }

  /** Every seed with one of the two arms has the other. */
  ghost predicate PairsAreWhole(bindings: seq<Binding>) {
    forall s :: VariantOf(bindings, s, FixedSeed).Some? <==> VariantOf(bindings, s, SelfEvolve).Some?
  }

  ghost predicate NothingMissing(bindings: seq<Binding>, table: Table, repetitions: nat) {
    forall r | 0 <= r < repetitions :: Complete(bindings, table, FixedSeed, SelfEvolve, r)
  }

  method ExpectedSeeds(bindings: seq<Binding>, groups: Groups) returns (expected: set<string>, blockers: set<Blocker>)
    requires GroupsAre(groups, bindings, {FixedSeed, SelfEvolve})
    ensures expected == Seeds(bindings, FixedSeed, SelfEvolve)
    ensures IncompletePairsOf(bindings, blockers)
  {
    expected, blockers := {}, {};
    var remaining := groups.Keys;
    while remaining != {}
      invariant remaining <= groups.Keys
      invariant expected == set s | s in groups.Keys - remaining && Paired(bindings, FixedSeed, SelfEvolve, s)
      invariant forall b :: b in blockers <==> && b.IncompletePair? && b.seed in groups.Keys - remaining
                                               && !Paired(bindings, FixedSeed, SelfEvolve, b.seed)
      decreases remaining
    {
      var seed :| seed in remaining;
      assert VariantIn(groups, seed, FixedSeed) == VariantOf(bindings, seed, FixedSeed);
      assert VariantIn(groups, seed, SelfEvolve) == VariantOf(bindings, seed, SelfEvolve);
      assert groups.Keys - (remaining - {seed}) == groups.Keys - remaining + {seed};
      remaining := remaining - {seed};
      if FixedSeed in groups[seed] && SelfEvolve in groups[seed] {
        expected := expected + {seed};
      } else {
        blockers := blockers + {IncompletePair(seed)};
      }
    }
    SeedsArePaired(bindings, FixedSeed, SelfEvolve);
    GroupedSeeds(bindings, groups);
    assert forall s :: s in groups && !Paired(bindings, FixedSeed, SelfEvolve, s) <==> HalfPaired(bindings, s);
  }

  lemma GroupedSeeds(bindings: seq<Binding>, groups: Groups)
    requires GroupsAre(groups, bindings, {FixedSeed, SelfEvolve})
    ensures forall s :: s in groups <==>
              VariantOf(bindings, s, FixedSeed).Some? || VariantOf(bindings, s, SelfEvolve).Some?
  {
    forall s
      ensures s in groups <==> VariantOf(bindings, s, FixedSeed).Some? || VariantOf(bindings, s, SelfEvolve).Some?
    {
      assert VariantIn(groups, s, FixedSeed) == VariantOf(bindings, s, FixedSeed);
      assert VariantIn(groups, s, SelfEvolve) == VariantOf(bindings, s, SelfEvolve);
      if s in groups {
        var a :| a in groups[s];
        assert VariantIn(groups, s, a) == if a in {FixedSeed, SelfEvolve} then VariantOf(bindings, s, a) else None;
      }
    }
  }

  ghost function PositiveUnits(values: seq<real>): set<nat> {
    set i: nat | i < |values| && values[i] > 0.0
  }

  /** LPI counts the units with a positive difference. */
  lemma {:induction false} PositivesExact(values: seq<real>)
    ensures Positives(values) == |PositiveUnits(values)|
  {
    if values == [] {
      assert PositiveUnits(values) == {};
    } else {
      var n := |values| - 1;
      PositivesExact(values[..n]);
      assert PositiveUnits(values) == PositiveUnits(values[..n]) + if values[n] > 0.0 then {n} else {};
    }
  }

  method CountPositives(values: seq<real>) returns (count: nat)
    ensures count == Positives(values)
  {
    count := 0;
    for i := 0 to |values|
      invariant count == Positives(values[..i])
    {
      assert values[..i + 1][..i] == values[..i];
      if values[i] > 0.0 { count := count + 1; }
    }
    assert values[..|values|] == values;
  }

  /** The repetition has not every expected seed. */
  ghost predicate Incomplete(bindings: seq<Binding>, table: Table, b: Blocker) {
    && b.IncompleteUnit? && b.expected == Seeds(bindings, FixedSeed, SelfEvolve)
    && b.actual == Deltas(bindings, table, FixedSeed, SelfEvolve, b.expected, b.repetition).Keys
    && b.actual != b.expected
  }

  ghost predicate UnitBlocker(bindings: seq<Binding>, table: Table, b: Blocker) {
    Faulty(bindings, table, b) || Incomplete(bindings, table, b)
  }

  ghost predicate UnitBlockers(bindings: seq<Binding>, table: Table, from: nat, to: nat, blockers: set<Blocker>) {
    forall b :: b in blockers <==> && UnitBlocker(bindings, table, b) && from <= b.repetition < to
  }

  method MatchedUnit(bindings: seq<Binding>, groups: Groups, table: Table, expected: set<string>, repetition: nat)
    returns (delta: Option<real>, own: Option<real>, blockers: set<Blocker>)
    requires GroupsAre(groups, bindings, {FixedSeed, SelfEvolve})
    requires expected == Seeds(bindings, FixedSeed, SelfEvolve)
    ensures delta == Unit(bindings, table, FixedSeed, SelfEvolve, repetition)
    ensures own == SelfUnit(bindings, table, repetition) && (own.Some? <==> delta.Some?)
    ensures UnitBlockers(bindings, table, repetition, repetition + 1, blockers)
  {
    var deltas, selfs, faults := MatchRepetition(bindings, groups, table, expected, repetition);
    UnitFaults(bindings, table, repetition, faults);
    if deltas.Keys != expected { return None, None, faults + {IncompleteUnit(repetition, expected, deltas.Keys)}; }
    if expected == {} { return None, None, faults; }
    var total := Sum(deltas);
    var selfTotal := Sum(selfs);
    return Some(total / |expected| as real), Some(selfTotal / |expected| as real), faults;
  }

  lemma UnitFaults(bindings: seq<Binding>, table: Table, repetition: nat, faults: set<Blocker>)
    requires FaultsAt(bindings, table, Seeds(bindings, FixedSeed, SelfEvolve), repetition, faults)
    ensures var seeds := Seeds(bindings, FixedSeed, SelfEvolve);
            var actual := Deltas(bindings, table, FixedSeed, SelfEvolve, seeds, repetition).Keys;
            UnitBlockers(bindings, table, repetition, repetition + 1,
                         faults + if actual != seeds then {IncompleteUnit(repetition, seeds, actual)} else {})
  {
    SeedsArePaired(bindings, FixedSeed, SelfEvolve);
  }

  method MatchAll(bindings: seq<Binding>, groups: Groups, table: Table, expected: set<string>, repetitions: nat)
    returns (deltas: seq<real>, selfs: seq<real>, blockers: set<Blocker>)
    requires GroupsAre(groups, bindings, {FixedSeed, SelfEvolve})
    requires expected == Seeds(bindings, FixedSeed, SelfEvolve)
    ensures deltas == LifetimeUnits(bindings, table, repetitions)
    ensures selfs == SelfUnits(bindings, table, repetitions) && |selfs| == |deltas|
    ensures UnitBlockers(bindings, table, 0, repetitions, blockers)
  {
    deltas, selfs, blockers := [], [], {};
    for repetition := 0 to repetitions
      invariant deltas == LifetimeUnits(bindings, table, repetition)
      invariant selfs == SelfUnits(bindings, table, repetition) && |selfs| == |deltas|
      invariant UnitBlockers(bindings, table, 0, repetition, blockers)
    {
      var delta, own, found := MatchedUnit(bindings, groups, table, expected, repetition);
      blockers := blockers + found;
      deltas, selfs := Extend(deltas, delta), Extend(selfs, own);
    }
  }

  ghost predicate IsBlocker(bindings: seq<Binding>, observations: seq<Observation>, repetitions: nat, b: Blocker) {
    match b
    case IncompletePair(seed) => HalfPaired(bindings, seed)
    case DuplicateObservation(key) => Duplicated(observations, key)
    case _ => UnitBlocker(bindings, FirstTable(observations), b) && b.repetition < repetitions
  }

  ghost predicate BlockersAre(bindings: seq<Binding>, observations: seq<Observation>, repetitions: nat,
                              blockers: set<Blocker>) {
    forall b :: b in blockers <==> IsBlocker(bindings, observations, repetitions, b)
  }

  ghost predicate NothingBlocks(bindings: seq<Binding>, observations: seq<Observation>, repetitions: nat) {
    forall b :: !IsBlocker(bindings, observations, repetitions, b)
  }

  lemma UnblockedPairs(bindings: seq<Binding>, observations: seq<Observation>, repetitions: nat)
    requires NothingBlocks(bindings, observations, repetitions)
    ensures PairsAreWhole(bindings)
  {
    forall s ensures VariantOf(bindings, s, FixedSeed).Some? <==> VariantOf(bindings, s, SelfEvolve).Some? {
      assert !IsBlocker(bindings, observations, repetitions, IncompletePair(s));
    }
  }

  lemma UnblockedKeys(bindings: seq<Binding>, observations: seq<Observation>, repetitions: nat)
    requires NothingBlocks(bindings, observations, repetitions)
    ensures NoDuplicates(observations)
  {
    forall i, j | 0 <= i < j < |observations| ensures observations[i].At() != observations[j].At() {
      assert !IsBlocker(bindings, observations, repetitions, DuplicateObservation(observations[i].At()));
    }
  }

  lemma UnblockedSeed(bindings: seq<Binding>, observations: seq<Observation>, repetitions: nat, seed: string, r: nat)
    requires NothingBlocks(bindings, observations, repetitions)
    requires r < repetitions && Paired(bindings, FixedSeed, SelfEvolve, seed)
    ensures SeedDelta(bindings, FirstTable(observations), FixedSeed, SelfEvolve, seed, r).Some?
  {
    assert !IsBlocker(bindings, observations, repetitions, Unpaired(Missing, seed, r));
    assert !IsBlocker(bindings, observations, repetitions, Unpaired(Blocked, seed, r));
    FaultIsGap(bindings, FirstTable(observations), FixedSeed, SelfEvolve, seed, r);
  }

  lemma UnblockedUnits(bindings: seq<Binding>, observations: seq<Observation>, repetitions: nat)
    requires NothingBlocks(bindings, observations, repetitions)
    ensures NothingMissing(bindings, FirstTable(observations), repetitions)
  {
    SeedsArePaired(bindings, FixedSeed, SelfEvolve);
    forall r, s | 0 <= r < repetitions && s in Seeds(bindings, FixedSeed, SelfEvolve)
      ensures SeedDelta(bindings, FirstTable(observations), FixedSeed, SelfEvolve, s, r).Some?
    {
      UnblockedSeed(bindings, observations, repetitions, s, r);
    }
  }

  lemma WholeHasNoBlocker(bindings: seq<Binding>, observations: seq<Observation>, repetitions: nat, b: Blocker)
    requires PairsAreWhole(bindings) && NoDuplicates(observations)
    requires NothingMissing(bindings, FirstTable(observations), repetitions)
    ensures !IsBlocker(bindings, observations, repetitions, b)
  {
    SeedsArePaired(bindings, FixedSeed, SelfEvolve);
    var table := FirstTable(observations);
    if (b.Unpaired? || b.IncompleteUnit?) && b.repetition < repetitions {
      assert Complete(bindings, table, FixedSeed, SelfEvolve, b.repetition);
      if b.Unpaired? && Paired(bindings, FixedSeed, SelfEvolve, b.seed) {
        FaultIsGap(bindings, table, FixedSeed, SelfEvolve, b.seed, b.repetition);
      }
    }
  }

  /** There is no blocker exactly when every seed with one arm has both, no observation is
      repeated and no unit misses a seed. */
  lemma NoBlockerExactly(bindings: seq<Binding>, observations: seq<Observation>, repetitions: nat,
                         blockers: set<Blocker>)
    requires BlockersAre(bindings, observations, repetitions, blockers)
    ensures blockers == {} <==> && PairsAreWhole(bindings) && NoDuplicates(observations)
                                && NothingMissing(bindings, FirstTable(observations), repetitions)
  {
    if blockers == {} {
      UnblockedPairs(bindings, observations, repetitions);
      UnblockedKeys(bindings, observations, repetitions);
      UnblockedUnits(bindings, observations, repetitions);
    } else {
      var b :| b in blockers;
      if PairsAreWhole(bindings) && NoDuplicates(observations)
         && NothingMissing(bindings, FirstTable(observations), repetitions) {
        WholeHasNoBlocker(bindings, observations, repetitions, b);
      }
    }
  }

  method Compute(bindings: seq<Binding>, repetitions: nat, observations: seq<Observation>)
    returns (lifetime: Option<Lifetime>, blockers: set<Blocker>)
    ensures lifetime == LifetimeOf(bindings, FirstTable(observations), repetitions)
    ensures BlockersAre(bindings, observations, repetitions, blockers)
  {
    var groups := Group(bindings, {FixedSeed, SelfEvolve});
    var expected, broken := ExpectedSeeds(bindings, groups);
    var table, duplicates := Tabulate(observations);
    var deltas, selfs, found := MatchAll(bindings, groups, table, expected, repetitions);
    blockers := broken + duplicates + found;
    if deltas == [] { return None, blockers; }
    var lte := Average(deltas);
    var clu := Average(selfs);
    var count := CountPositives(deltas);
    lifetime := Some(Lifetime(lte, clu, count as real / |deltas| as real));
  }
}
