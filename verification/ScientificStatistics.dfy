/** The statistics provider: paired effects of every pair of arms over matched units,
    with Holm-adjusted p-values. */
module ScientificStatistics {
  import opened Multiples
  import opened Options
  import opened MatchedUnits
  import HolmAdjustment

  /** A pair of arms; the reference comes first in the order of the arms. */
  datatype Pair = Pair(treatment: Arm, reference: Arm)

  /** The pairs in the order the comparisons come in. */
  const PAIRS := [Pair(RuleBasedEvolver, FixedSeed), Pair(SelfEvolve, FixedSeed), Pair(SelfEvolve, RuleBasedEvolver)]

  /** The last observation of a variant and repetition counts. */
  function LastTable(observations: seq<Observation>): Table {
    if observations == [] then map[]
    else
      var last := observations[|observations| - 1];
      LastTable(observations[..|observations| - 1])[last.At() := last.metrics]
  }

  /** The table holds the last observation of every key. */
  lemma {:induction false} LastCounts(observations: seq<Observation>, i: nat)
    requires i < |observations|
    requires forall j | i < j < |observations| :: observations[j].At() != observations[i].At()
    ensures observations[i].At() in LastTable(observations)
    ensures LastTable(observations)[observations[i].At()] == observations[i].metrics
  {
    if i < |observations| - 1 { LastCounts(observations[..|observations| - 1], i); }
  }

  method Tabulate(observations: seq<Observation>) returns (table: Table)
    ensures table == LastTable(observations)
  {
    table := map[];
    for k := 0 to |observations|
      invariant table == LastTable(observations[..k])
    {
      assert observations[..k + 1][..k] == observations[..k];
      table := table[observations[k].At() := observations[k].metrics];
    }
    assert observations[..|observations|] == observations;
  }

  // ---- Filling the seed values of every pair ----

  type Values = map<nat, map<string, real>>

  function ValuesAt(values: Values, repetition: nat): map<string, real> {
    if repetition in values then values[repetition] else map[]
  }

  /** The values hold the differences of exactly the seeds done, for the repetitions
      below `repetitions`. */
  ghost predicate Records(bindings: seq<Binding>, table: Table, values: Values, pair: Pair, done: set<string>,
                          repetitions: nat) {
    forall r | 0 <= r < repetitions ::
      ValuesAt(values, r) == Deltas(bindings, table, pair.reference, pair.treatment, done, r)
  }

  /** What stands against a report: a seed without a difference in a repetition, and a
      repetition in which not every expected seed has one. */
  datatype Blocker =
    | Unpaired(fault: Fault, seed: string, pair: Pair, repetition: nat)
    | IncompleteUnit(pair: Pair, repetition: nat, expected: set<string>, actual: set<string>)

  /** A fault of an observed pair in the first `n` repetitions. */
  ghost predicate Faulty(bindings: seq<Binding>, table: Table, b: Blocker, n: nat) {
    && b.Unpaired? && b.repetition < n
    && SeedFault(bindings, table, b.pair.reference, b.pair.treatment, b.seed, b.repetition) == Some(b.fault)
  }

  /** Every repetition below has a difference for the seed. */
  ghost predicate SeedComplete(bindings: seq<Binding>, table: Table, pair: Pair, seed: string, repetitions: nat) {
    forall r | 0 <= r < repetitions ::
      SeedDelta(bindings, table, pair.reference, pair.treatment, seed, r).Some?
  }

  lemma OneMoreSeed(bindings: seq<Binding>, table: Table, pair: Pair, done: set<string>, seed: string, r: nat)
    ensures Deltas(bindings, table, pair.reference, pair.treatment, done + {seed}, r) ==
            (var before := Deltas(bindings, table, pair.reference, pair.treatment, done, r);
             var d := SeedDelta(bindings, table, pair.reference, pair.treatment, seed, r);
             if d.Some? then before[seed := d.value] else before)
  {
  }

  /** The loop over the repetitions of one seed and one pair. */
  method RecordSeed(bindings: seq<Binding>, table: Table, pair: Pair, ghost done: set<string>, seed: string,
                    variants: map<Arm, string>, before: Values, repetitions: nat)
    returns (values: Values, blockers: set<Blocker>)
    requires pair.reference in variants && Some(variants[pair.reference]) == VariantOf(bindings, seed, pair.reference)
    requires pair.treatment in variants && Some(variants[pair.treatment]) == VariantOf(bindings, seed, pair.treatment)
    requires Records(bindings, table, before, pair, done, repetitions)
    ensures Records(bindings, table, values, pair, done + {seed}, repetitions)
    ensures forall b :: b in blockers <==> b.Unpaired? && b.pair == pair && b.seed == seed
                                           && Faulty(bindings, table, b, repetitions)
  {
    values, blockers := before, {};
    var reference, treatment := variants[pair.reference], variants[pair.treatment];
    for r := 0 to repetitions
      invariant Records(bindings, table, values, pair, done + {seed}, r)
      invariant forall k | r <= k < repetitions :: ValuesAt(values, k) == ValuesAt(before, k)
      invariant forall b :: b in blockers <==> b.Unpaired? && b.pair == pair && b.seed == seed
                                               && Faulty(bindings, table, b, r)
    {
      OneMoreSeed(bindings, table, pair, done, seed, r);
      var utility, treated := UtilityAt(table, reference, r), UtilityAt(table, treatment, r);
      if utility.None? || treated.None? {
        blockers := blockers + {Unpaired(Missing, seed, pair, r)};
        continue;
      }
      if table[Key(reference, r)].blocked > 0.0 || table[Key(treatment, r)].blocked > 0.0 {
        blockers := blockers + {Unpaired(Blocked, seed, pair, r)};
        continue;
      }
      values := values[r := ValuesAt(values, r)[seed := treated.value - utility.value]];
    }
  }

  // ---- All seeds, all pairs ----

  predicate IsPaired(bindings: seq<Binding>, pair: Pair, seed: string) {
    Paired(bindings, pair.reference, pair.treatment, seed)
  }

  function Lookup(all: map<Pair, Values>, pair: Pair): Values {
    if pair in all then all[pair] else map[]
  }

  /** The pair has an entry exactly when a seed done declares both arms, and the entry
      records the seeds done. */
  ghost predicate PairState(bindings: seq<Binding>, table: Table, all: map<Pair, Values>, pair: Pair,
                            done: set<string>, repetitions: nat) {
    && (pair in all <==> exists s | s in done :: IsPaired(bindings, pair, s))
    && Records(bindings, table, Lookup(all, pair), pair, done, repetitions)
  }

  lemma SkipSeed(bindings: seq<Binding>, table: Table, all: map<Pair, Values>, pair: Pair, done: set<string>,
                 seed: string, repetitions: nat)
    requires PairState(bindings, table, all, pair, done, repetitions) && !IsPaired(bindings, pair, seed)
    ensures PairState(bindings, table, all, pair, done + {seed}, repetitions)
  {
    forall r | 0 <= r < repetitions
      ensures ValuesAt(Lookup(all, pair), r) ==
              Deltas(bindings, table, pair.reference, pair.treatment, done + {seed}, r)
    {
      OneMoreSeed(bindings, table, pair, done, seed, r);
    }
  }

  ghost predicate VariantsAre(bindings: seq<Binding>, seed: string, variants: map<Arm, string>) {
    forall a :: (if a in variants then Some(variants[a]) else None) == VariantOf(bindings, seed, a)
  }

  /** The seed has a difference in every repetition for the first `k` pairs it declares. */
  ghost predicate PairsComplete(bindings: seq<Binding>, table: Table, seed: string, k: nat, repetitions: nat) {
    forall l | 0 <= l < k && l < 3 && IsPaired(bindings, PAIRS[l], seed) ::
      SeedComplete(bindings, table, PAIRS[l], seed, repetitions)
  }

  lemma OtherPairKept(bindings: seq<Binding>, table: Table, before: map<Pair, Values>, all: map<Pair, Values>,
                      pair: Pair, done: set<string>, repetitions: nat)
    requires PairState(bindings, table, before, pair, done, repetitions)
    requires (pair in all <==> pair in before) && Lookup(all, pair) == Lookup(before, pair)
    ensures PairState(bindings, table, all, pair, done, repetitions)
  {
  }

  /** One pair of one seed, skipped unless the seed declares both arms. */
  method RecordPair(bindings: seq<Binding>, table: Table, ghost done: set<string>, seed: string,
                    variants: map<Arm, string>, before: map<Pair, Values>, pair: Pair, repetitions: nat)
    returns (all: map<Pair, Values>, blockers: set<Blocker>)
    requires VariantsAre(bindings, seed, variants)
    requires PairState(bindings, table, before, pair, done, repetitions)
    ensures PairState(bindings, table, all, pair, done + {seed}, repetitions)
    ensures forall p | p != pair :: (p in all <==> p in before) && Lookup(all, p) == Lookup(before, p)
    ensures forall b :: b in blockers <==> b.Unpaired? && b.pair == pair && b.seed == seed
                                           && Faulty(bindings, table, b, repetitions)
  {
    if pair.reference !in variants || pair.treatment !in variants {
      SkipSeed(bindings, table, before, pair, done, seed, repetitions);
      return before, {};
    }
    assert IsPaired(bindings, pair, seed);
    var values;
    values, blockers := RecordSeed(bindings, table, pair, done, seed, variants, Lookup(before, pair), repetitions);
    all := before[pair := values];
  }

  ghost predicate AmongPairs(pair: Pair, k: nat) {
    exists l :: 0 <= l < k && l < 3 && PAIRS[l] == pair
  }

  /** The faults of one seed for the first `k` pairs. */
  ghost predicate SeedFaults(bindings: seq<Binding>, table: Table, seed: string, k: nat, repetitions: nat,
                             blockers: set<Blocker>) {
    forall b :: b in blockers <==> b.Unpaired? && b.seed == seed && AmongPairs(b.pair, k)
                                   && Faulty(bindings, table, b, repetitions)
  }

  lemma NextPair(bindings: seq<Binding>, table: Table, seed: string, k: nat, repetitions: nat,
                 before: set<Blocker>, found: set<Blocker>)
    requires k < 3 && SeedFaults(bindings, table, seed, k, repetitions, before)
    requires forall b :: b in found <==> b.Unpaired? && b.pair == PAIRS[k] && b.seed == seed
                                         && Faulty(bindings, table, b, repetitions)
    ensures SeedFaults(bindings, table, seed, k + 1, repetitions, before + found)
  {
    assert forall pair :: AmongPairs(pair, k + 1) <==> AmongPairs(pair, k) || pair == PAIRS[k] by {
      assert AmongPairs(PAIRS[k], k + 1);
    }
  }

  /** The loops over the pairs of one seed: each reference with the arms after it. */
  method RecordPairs(bindings: seq<Binding>, table: Table, ghost done: set<string>, seed: string,
                     variants: map<Arm, string>, before: map<Pair, Values>, repetitions: nat)
    returns (all: map<Pair, Values>, blockers: set<Blocker>)
    requires VariantsAre(bindings, seed, variants)
    requires forall l | 0 <= l < 3 :: PairState(bindings, table, before, PAIRS[l], done, repetitions)
    ensures forall l | 0 <= l < 3 :: PairState(bindings, table, all, PAIRS[l], done + {seed}, repetitions)
    ensures SeedFaults(bindings, table, seed, 3, repetitions, blockers)
  {
    all, blockers := before, {};
    for k := 0 to 3
      invariant forall l | 0 <= l < k :: PairState(bindings, table, all, PAIRS[l], done + {seed}, repetitions)
      invariant forall l | k <= l < 3 :: PairState(bindings, table, all, PAIRS[l], done, repetitions)
      invariant SeedFaults(bindings, table, seed, k, repetitions, blockers)
    {
      var next, found := RecordPair(bindings, table, done, seed, variants, all, PAIRS[k], repetitions);
      forall l | 0 <= l < 3 && l != k
        ensures PairState(bindings, table, next, PAIRS[l], if l < k then done + {seed} else done, repetitions)
      {
        OtherPairKept(bindings, table, all, next, PAIRS[l], if l < k then done + {seed} else done, repetitions);
      }
      NextPair(bindings, table, seed, k, repetitions, blockers, found);
      blockers := blockers + found;
      all := next;
    }
  }

  lemma GroupedVariant(bindings: seq<Binding>, groups: Groups, seed: string, arm: Arm)
    requires GroupsAre(groups, bindings, {FixedSeed, RuleBasedEvolver, SelfEvolve})
    ensures VariantIn(groups, seed, arm) == VariantOf(bindings, seed, arm)
  {
    var wanted := {FixedSeed, RuleBasedEvolver, SelfEvolve};
    assert arm.FixedSeed? || arm.RuleBasedEvolver? || arm.SelfEvolve?;
    assert VariantIn(groups, seed, arm) == if arm in wanted then VariantOf(bindings, seed, arm) else None;
  }

  /** The faults of the seeds done, for every pair. */
  ghost predicate FaultsOf(bindings: seq<Binding>, table: Table, done: set<string>, repetitions: nat,
                           blockers: set<Blocker>) {
    forall b :: b in blockers <==> b.Unpaired? && b.seed in done && AmongPairs(b.pair, 3)
                                   && Faulty(bindings, table, b, repetitions)
  }

  method RecordAll(bindings: seq<Binding>, groups: Groups, table: Table, repetitions: nat)
    returns (all: map<Pair, Values>, blockers: set<Blocker>)
    requires GroupsAre(groups, bindings, {FixedSeed, RuleBasedEvolver, SelfEvolve})
    ensures forall l | 0 <= l < 3 :: PairState(bindings, table, all, PAIRS[l], groups.Keys, repetitions)
    ensures FaultsOf(bindings, table, groups.Keys, repetitions, blockers)
  {
    all, blockers := map[], {};
    var remaining := groups.Keys;
    ghost var done := {};
    while remaining != {}
      invariant done + remaining == groups.Keys
      invariant forall l | 0 <= l < 3 :: PairState(bindings, table, all, PAIRS[l], done, repetitions)
      invariant FaultsOf(bindings, table, done, repetitions, blockers)
      decreases remaining
    {
      var seed :| seed in remaining;
      remaining := remaining - {seed};
      forall a ensures (if a in groups[seed] then Some(groups[seed][a]) else None) == VariantOf(bindings, seed, a) {
        GroupedVariant(bindings, groups, seed, a);
      }
      var found;
      all, found := RecordPairs(bindings, table, done, seed, groups[seed], all, repetitions);
      blockers := blockers + found;
      done := done + {seed};
    }
    assert done == groups.Keys;
  }

  // ---- Units of a pair ----

  lemma PairedSeedsAreGrouped(bindings: seq<Binding>, groups: Groups, pair: Pair, s: string)
    requires GroupsAre(groups, bindings, {FixedSeed, RuleBasedEvolver, SelfEvolve})
    ensures IsPaired(bindings, pair, s) <==>
            s in groups && pair.treatment in groups[s] && pair.reference in groups[s]
  {
    GroupedVariant(bindings, groups, s, pair.reference);
    GroupedVariant(bindings, groups, s, pair.treatment);
  }

  lemma ExpectedSeeds(bindings: seq<Binding>, groups: Groups, pair: Pair, table: Table, r: nat)
    requires GroupsAre(groups, bindings, {FixedSeed, RuleBasedEvolver, SelfEvolve})
    ensures (set s | s in groups && pair.treatment in groups[s] && pair.reference in groups[s]) ==
            Seeds(bindings, pair.reference, pair.treatment)
    ensures Deltas(bindings, table, pair.reference, pair.treatment, groups.Keys, r) ==
            Deltas(bindings, table, pair.reference, pair.treatment, Seeds(bindings, pair.reference, pair.treatment), r)
  {
    SeedsArePaired(bindings, pair.reference, pair.treatment);
    forall s ensures IsPaired(bindings, pair, s) <==>
                     s in groups && pair.treatment in groups[s] && pair.reference in groups[s] {
      PairedSeedsAreGrouped(bindings, groups, pair, s);
    }
  }

  /** The mean of a repetition's values, when every expected seed has one. */
  method UnitValue(expected: set<string>, values: map<string, real>) returns (unit: Option<real>)
    requires expected != {}
    ensures unit == if values.Keys != expected then None else Some(Total(values) / |expected| as real)
  {
    if values.Keys != expected { return None; }
    var total := Sum(values);
    unit := Some(total / |expected| as real);
  }

  /** The repetitions below `n` of a pair in which some expected seed has no difference. */
  ghost predicate Incomplete(bindings: seq<Binding>, table: Table, b: Blocker, n: nat) {
    && b.IncompleteUnit? && b.repetition < n
    && b.expected == Seeds(bindings, b.pair.reference, b.pair.treatment)
    && b.actual == Deltas(bindings, table, b.pair.reference, b.pair.treatment, b.expected, b.repetition).Keys
    && b.actual != b.expected
  }

  ghost predicate IncompleteOf(bindings: seq<Binding>, table: Table, pair: Pair, n: nat, blockers: set<Blocker>) {
    forall b :: b in blockers <==> b.IncompleteUnit? && b.pair == pair && Incomplete(bindings, table, b, n)
  }

  lemma NextRepetition(bindings: seq<Binding>, table: Table, pair: Pair, r: nat, blockers: set<Blocker>)
    requires IncompleteOf(bindings, table, pair, r, blockers)
    ensures var seeds := Seeds(bindings, pair.reference, pair.treatment);
            var actual := Deltas(bindings, table, pair.reference, pair.treatment, seeds, r).Keys;
            IncompleteOf(bindings, table, pair, r + 1,
                         if actual == seeds then blockers else blockers + {IncompleteUnit(pair, r, seeds, actual)})
  {
  }

  method UnitValues(bindings: seq<Binding>, groups: Groups, table: Table, pair: Pair, values: Values, repetitions: nat)
    returns (units: seq<real>, blockers: set<Blocker>)
    requires GroupsAre(groups, bindings, {FixedSeed, RuleBasedEvolver, SelfEvolve})
    requires Records(bindings, table, values, pair, groups.Keys, repetitions)
    requires Seeds(bindings, pair.reference, pair.treatment) != {}
    ensures units == Units(bindings, table, pair.reference, pair.treatment, repetitions)
    ensures IncompleteOf(bindings, table, pair, repetitions, blockers)
  {
    units, blockers := [], {};
    var expected := set s | s in groups && pair.treatment in groups[s] && pair.reference in groups[s];
    ExpectedSeeds(bindings, groups, pair, table, 0);
    for r := 0 to repetitions
      invariant units == Units(bindings, table, pair.reference, pair.treatment, r)
      invariant IncompleteOf(bindings, table, pair, r, blockers)
    {
      ExpectedSeeds(bindings, groups, pair, table, r);
      var unit := UnitValue(expected, ValuesAt(values, r));
      units := Extend(units, unit);
      NextRepetition(bindings, table, pair, r, blockers);
      if unit.None? { blockers := blockers + {IncompleteUnit(pair, r, expected, ValuesAt(values, r).Keys)}; }
    }
  }

  // ---- Comparisons ----

  /** The square root, and the two-sided tail of the normal distribution: what
      `erfc(z / sqrt(2))` is for `z`. */
  datatype Numerics = Numerics(sqrt: real -> real, tail: real -> real)

  datatype Comparison = Comparison(
    pair: Pair, estimate: real, count: nat, standardError: real, ciLower: real, ciUpper: real,
    raw: real, adjusted: real)

  const TINY := 0.000000000001

  function Abs(x: real): real {
    if x < 0.0 then -x else x
  }

  /** The sum of the squared deviations from `center`. */
  function Squares(values: seq<real>, center: real): real {
    if values == [] then 0.0
    else Squares(values[..|values| - 1], center) + Square(values[|values| - 1] - center)
  }

  function Variance(values: seq<real>): real
    requires values != []
  {
    if |values| > 1 then Squares(values, Mean(values)) / (|values| - 1) as real else 0.0
  }

  function StandardError(num: Numerics, values: seq<real>): real
    requires values != []
  {
    num.sqrt(Variance(values) / |values| as real)
  }

  /** Without spread the p-value is decided by the estimate alone. */
  function RawP(num: Numerics, estimate: real, standardError: real): real {
    if standardError <= TINY then if Abs(estimate) > TINY then 0.0 else 1.0
    else num.tail(Abs(estimate / standardError))
  }

  ghost function UnitsOf(bindings: seq<Binding>, table: Table, repetitions: nat, pair: Pair): seq<real> {
    Units(bindings, table, pair.reference, pair.treatment, repetitions)
  }

  /** A p-value is clipped to the unit interval. */
  function Clip(p: real): real {
    HolmAdjustment.Min(1.0, HolmAdjustment.Max(0.0, p))
  }

  /** The comparison of a pair before adjustment, if it has units. */
  ghost function Entry(units: seq<real>, pair: Pair, num: Numerics): seq<Comparison> {
    if units == [] then []
    else
      var estimate, error := Mean(units), StandardError(num, units);
      [Comparison(pair, estimate, |units|, error, estimate - 1.96 * error, estimate + 1.96 * error,
                  Clip(RawP(num, estimate, error)), 0.0)]
  }

  /** The comparisons of the first `k` pairs, before adjustment. */
  ghost function Raw(bindings: seq<Binding>, table: Table, repetitions: nat, num: Numerics,
                     k: nat): seq<Comparison>
    requires k <= 3
  {
    if k == 0 then []
    else
      Raw(bindings, table, repetitions, num, k - 1) +
      Entry(UnitsOf(bindings, table, repetitions, PAIRS[k - 1]), PAIRS[k - 1], num)
  }

  function PValues(comparisons: seq<Comparison>): seq<real> {
    seq(|comparisons|, i requires 0 <= i < |comparisons| => comparisons[i].raw)
  }

  /** The comparisons are the raw ones with their Holm adjustment. */
  ghost predicate AdjustedFrom(comparisons: seq<Comparison>, raw: seq<Comparison>) {
    && |comparisons| == |raw|
    && forall i | 0 <= i < |raw| ::
         comparisons[i] == raw[i].(adjusted := HolmAdjustment.Adjusted(PValues(raw), i))
  }

  /** No blocker: every seed has a difference in every repetition, for every pair of arms
      it declares. */
  ghost predicate Clean(bindings: seq<Binding>, table: Table, repetitions: nat) {
    forall s :: PairsComplete(bindings, table, s, 3, repetitions)
  }

  /** One pair: its units, or none when no seed declares both arms. */
  method PairUnits(bindings: seq<Binding>, groups: Groups, table: Table, all: map<Pair, Values>, pair: Pair,
                   repetitions: nat)
    returns (units: seq<real>, blockers: set<Blocker>)
    requires GroupsAre(groups, bindings, {FixedSeed, RuleBasedEvolver, SelfEvolve})
    requires PairState(bindings, table, all, pair, groups.Keys, repetitions)
    ensures units == UnitsOf(bindings, table, repetitions, pair)
    ensures IncompleteOf(bindings, table, pair, repetitions, blockers)
  {
    EntryMeansSeeds(bindings, groups, table, all, pair, repetitions);
    if pair !in all { return [], {}; }
    units, blockers := UnitValues(bindings, groups, table, pair, all[pair], repetitions);
  }

  method Compare(units: seq<real>, pair: Pair, num: Numerics) returns (entry: seq<Comparison>)
    ensures entry == Entry(units, pair, num)
  {
    if units == [] { return []; }
    var estimate := Average(units);
    var variance := SampleVariance(units, estimate);
    var error := num.sqrt(variance / |units| as real);
    var margin := 1.96 * error;
    var raw := 0.0;
    if error <= TINY {
      raw := if Abs(estimate) > TINY then 0.0 else 1.0;
    } else {
      raw := num.tail(Abs(estimate / error));
    }
    entry := [Comparison(pair, estimate, |units|, error, estimate - margin, estimate + margin, Clip(raw), 0.0)];
  }

  method SampleVariance(values: seq<real>, estimate: real) returns (variance: real)
    requires values != [] && estimate == Mean(values)
    ensures variance == Variance(values)
  {
    if |values| == 1 { return 0.0; }
    var squares := 0.0;
    for i := 0 to |values|
      invariant squares == Squares(values[..i], estimate)
    {
      assert values[..i + 1][..i] == values[..i];
      squares := squares + Square(values[i] - estimate);
    }
    assert values[..|values|] == values;
    variance := squares / (|values| - 1) as real;
  }

  lemma {:induction false} SquaresExact(values: seq<real>, center: real)
    ensures Squares(values, center) >= 0.0
    ensures Squares(values, center) == 0.0 <==> forall i | 0 <= i < |values| :: values[i] == center
  {
    if values != [] {
      var front, last := values[..|values| - 1], values[|values| - 1];
      SquaresExact(front, center);
      SquareSign(last - center);
      assert Squares(values, center) == Squares(front, center) + Square(last - center);
      assert forall i | 0 <= i < |front| :: front[i] == values[i];
    }
  }

  lemma {:induction false} SumOfEqual(values: seq<real>, x: real)
    requires forall i | 0 <= i < |values| :: values[i] == x
    ensures SumOf(values) == |values| as real * x
  {
    if values != [] {
      SumOfEqual(values[..|values| - 1], x);
    }
  }

  /** Units that all have one value: no spread, an interval of that point, and a p-value
      that says whether it is zero. */
  lemma EqualUnits(num: Numerics, units: seq<real>, pair: Pair, x: real)
    requires units != [] && num.sqrt(0.0) == 0.0
    requires forall i | 0 <= i < |units| :: units[i] == x
    ensures Entry(units, pair, num) ==
            [Comparison(pair, x, |units|, 0.0, x, x, if Abs(x) > TINY then 0.0 else 1.0, 0.0)]
  {
    SumOfEqual(units, x);
    assert Mean(units) == x;
    SquaresExact(units, x);
    assert Variance(units) == 0.0;
  }

  /** The interval is centred on the estimate, and a point exactly without spread. */
  lemma IntervalAroundEstimate(num: Numerics, units: seq<real>, pair: Pair)
    requires units != [] && forall x :: x >= 0.0 ==> num.sqrt(x) >= 0.0 && (num.sqrt(x) == 0.0 <==> x == 0.0)
    ensures var c := Entry(units, pair, num)[0];
            && c.ciLower <= c.estimate <= c.ciUpper && c.estimate - c.ciLower == c.ciUpper - c.estimate
            && (c.ciLower == c.ciUpper <==> forall i | 0 <= i < |units| :: units[i] == c.estimate)
  {
    SquaresExact(units, Mean(units));
    SpreadIsVariance(units);
  }

  lemma SpreadIsVariance(units: seq<real>)
    requires units != []
    ensures Variance(units) / |units| as real >= 0.0
    ensures Variance(units) / |units| as real == 0.0 <==> Squares(units, Mean(units)) == 0.0
  {
    SquaresExact(units, Mean(units));
    if |units| == 1 {
      assert SumOf(units) == SumOf(units[..0]) + units[0];
      assert Mean(units) == units[0];
    } else {
      QuotientSign(Squares(units, Mean(units)), |units| - 1);
    }
    QuotientSign(Variance(units), |units|);
  }

  lemma QuotientSign(x: real, n: nat)
    requires n > 0 && x >= 0.0
    ensures x / n as real >= 0.0 && (x / n as real == 0.0 <==> x == 0.0)
  {
    assert x == (x / n as real) * n as real;
  }

  ghost predicate IncompletePairs(bindings: seq<Binding>, table: Table, k: nat, repetitions: nat,
                                  blockers: set<Blocker>) {
    forall b :: b in blockers <==> && b.IncompleteUnit? && AmongPairs(b.pair, k)
                                   && Incomplete(bindings, table, b, repetitions)
  }

  lemma NextIncomplete(bindings: seq<Binding>, table: Table, k: nat, repetitions: nat, before: set<Blocker>,
                       found: set<Blocker>)
    requires k < 3 && IncompletePairs(bindings, table, k, repetitions, before)
    requires IncompleteOf(bindings, table, PAIRS[k], repetitions, found)
    ensures IncompletePairs(bindings, table, k + 1, repetitions, before + found)
  {
    assert forall pair :: AmongPairs(pair, k + 1) <==> AmongPairs(pair, k) || pair == PAIRS[k] by {
      assert AmongPairs(PAIRS[k], k + 1);
    }
  }

  method CompareAll(bindings: seq<Binding>, groups: Groups, table: Table, all: map<Pair, Values>, repetitions: nat,
                    num: Numerics)
    returns (raw: seq<Comparison>, missing: bool, blockers: set<Blocker>)
    requires GroupsAre(groups, bindings, {FixedSeed, RuleBasedEvolver, SelfEvolve})
    requires forall l | 0 <= l < 3 :: PairState(bindings, table, all, PAIRS[l], groups.Keys, repetitions)
    ensures raw == Raw(bindings, table, repetitions, num, 3)
    ensures missing <==> UnitsOf(bindings, table, repetitions, PAIRS[1]) == []
    ensures IncompletePairs(bindings, table, 3, repetitions, blockers)
  {
    raw, missing, blockers := [], true, {};
    for k := 0 to 3
      invariant raw == Raw(bindings, table, repetitions, num, k)
      invariant missing <==> k < 2 || UnitsOf(bindings, table, repetitions, PAIRS[1]) == []
      invariant IncompletePairs(bindings, table, k, repetitions, blockers)
    {
      var units, found := PairUnits(bindings, groups, table, all, PAIRS[k], repetitions);
      NextIncomplete(bindings, table, k, repetitions, blockers, found);
      blockers := blockers + found;
      var entry := Compare(units, PAIRS[k], num);
      raw := raw + entry;
      if PAIRS[k] == Pair(SelfEvolve, FixedSeed) { missing := units == []; }
    }
  }

  method Compute(bindings: seq<Binding>, repetitions: nat, observations: seq<Observation>, num: Numerics)
    returns (comparisons: seq<Comparison>, missing: bool, blockers: set<Blocker>)
    ensures AdjustedFrom(comparisons, Raw(bindings, LastTable(observations), repetitions, num, 3))
    ensures missing <==> UnitsOf(bindings, LastTable(observations), repetitions, PAIRS[1]) == []
    ensures BlockersAre(bindings, LastTable(observations), repetitions, blockers)
  {
    var groups := Group(bindings, {FixedSeed, RuleBasedEvolver, SelfEvolve});
    var table := Tabulate(observations);
    var all, faults := RecordAll(bindings, groups, table, repetitions);
    var raw, incomplete;
    raw, missing, incomplete := CompareAll(bindings, groups, table, all, repetitions, num);
    var adjusted := HolmAdjustment.Adjust(PValues(raw));
    comparisons := seq(|raw|, i requires 0 <= i < |raw| => raw[i].(adjusted := adjusted[i]));
    AllBlockers(bindings, groups, table, repetitions, faults, incomplete);
    blockers := faults + incomplete;
  }

  /** The blockers are exactly the faults of paired seeds and the incomplete units. */
  ghost predicate BlockersAre(bindings: seq<Binding>, table: Table, repetitions: nat, blockers: set<Blocker>) {
    forall b :: b in blockers <==> IsBlocker(bindings, table, repetitions, b)
  }

  ghost predicate IsBlocker(bindings: seq<Binding>, table: Table, repetitions: nat, b: Blocker) {
    AmongPairs(b.pair, 3) && (Faulty(bindings, table, b, repetitions) || Incomplete(bindings, table, b, repetitions))
  }

  lemma AllBlockers(bindings: seq<Binding>, groups: Groups, table: Table, repetitions: nat, faults: set<Blocker>,
                    incomplete: set<Blocker>)
    requires GroupsAre(groups, bindings, {FixedSeed, RuleBasedEvolver, SelfEvolve})
    requires FaultsOf(bindings, table, groups.Keys, repetitions, faults)
    requires IncompletePairs(bindings, table, 3, repetitions, incomplete)
    ensures BlockersAre(bindings, table, repetitions, faults + incomplete)
  {
    forall b | Faulty(bindings, table, b, repetitions) ensures b.seed in groups {
      PairedSeedsAreGrouped(bindings, groups, b.pair, b.seed);
    }
  }

  /** There is none exactly when every seed has a difference in every repetition, for every
      pair of arms it declares. */
  lemma NoBlockerExactly(bindings: seq<Binding>, table: Table, repetitions: nat, blockers: set<Blocker>)
    requires BlockersAre(bindings, table, repetitions, blockers)
    ensures blockers == {} <==> Clean(bindings, table, repetitions)
  {
    if blockers == {} {
      forall s, l | 0 <= l < 3 && IsPaired(bindings, PAIRS[l], s)
        ensures SeedComplete(bindings, table, PAIRS[l], s, repetitions)
      {
        forall r | 0 <= r < repetitions
          ensures SeedDelta(bindings, table, PAIRS[l].reference, PAIRS[l].treatment, s, r).Some?
        {
          assert AmongPairs(PAIRS[l], 3);
          assert !IsBlocker(bindings, table, repetitions, Unpaired(Missing, s, PAIRS[l], r));
          assert !IsBlocker(bindings, table, repetitions, Unpaired(Blocked, s, PAIRS[l], r));
        }
      }
    }
    if Clean(bindings, table, repetitions) {
      forall b ensures b !in blockers { CleanHasNoBlocker(bindings, table, repetitions, b); }
    }
  }

  lemma CleanHasDelta(bindings: seq<Binding>, table: Table, repetitions: nat, pair: Pair, seed: string, r: nat)
    requires Clean(bindings, table, repetitions) && AmongPairs(pair, 3) && r < repetitions
    requires IsPaired(bindings, pair, seed)
    ensures SeedDelta(bindings, table, pair.reference, pair.treatment, seed, r).Some?
  {
    var l :| 0 <= l < 3 && PAIRS[l] == pair;
    assert PairsComplete(bindings, table, seed, 3, repetitions);
    assert SeedComplete(bindings, table, PAIRS[l], seed, repetitions);
  }

  lemma CleanHasNoBlocker(bindings: seq<Binding>, table: Table, repetitions: nat, b: Blocker)
    requires Clean(bindings, table, repetitions)
    ensures !IsBlocker(bindings, table, repetitions, b)
  {
    if AmongPairs(b.pair, 3) && b.repetition < repetitions {
      if b.Unpaired? && IsPaired(bindings, b.pair, b.seed) {
        CleanHasDelta(bindings, table, repetitions, b.pair, b.seed, b.repetition);
        FaultIsGap(bindings, table, b.pair.reference, b.pair.treatment, b.seed, b.repetition);
      }
      if b.IncompleteUnit? && b.expected == Seeds(bindings, b.pair.reference, b.pair.treatment) {
        SeedsArePaired(bindings, b.pair.reference, b.pair.treatment);
        forall s | s in b.expected
          ensures SeedDelta(bindings, table, b.pair.reference, b.pair.treatment, s, b.repetition).Some?
        {
          CleanHasDelta(bindings, table, repetitions, b.pair, s, b.repetition);
        }
      }
    }
  }

  lemma EntryMeansSeeds(bindings: seq<Binding>, groups: Groups, table: Table, all: map<Pair, Values>, pair: Pair,
                        repetitions: nat)
    requires GroupsAre(groups, bindings, {FixedSeed, RuleBasedEvolver, SelfEvolve})
    requires PairState(bindings, table, all, pair, groups.Keys, repetitions)
    ensures pair in all <==> Seeds(bindings, pair.reference, pair.treatment) != {}
    ensures pair !in all ==> UnitsOf(bindings, table, repetitions, pair) == []
  {
    SeedsArePaired(bindings, pair.reference, pair.treatment);
    forall s | IsPaired(bindings, pair, s) ensures s in groups {
      PairedSeedsAreGrouped(bindings, groups, pair, s);
    }
    if pair in all {
      var s :| s in groups && IsPaired(bindings, pair, s);
      assert s in Seeds(bindings, pair.reference, pair.treatment);
    } else {
      NoSeeds(bindings, table, pair, repetitions);
    }
  }

  lemma {:induction false} NoSeeds(bindings: seq<Binding>, table: Table, pair: Pair, repetitions: nat)
    ensures Seeds(bindings, pair.reference, pair.treatment) == {} ==>
            UnitsOf(bindings, table, repetitions, pair) == []
  {
    if repetitions > 0 { NoSeeds(bindings, table, pair, repetitions - 1); }
  }
}
