/** Matched environment units: per repetition, the paired differences of two arms
    averaged over the seeds that declare both.  A unit exists only when every such
    seed is present and unblocked. */
module MatchedUnits {
  import opened Options

  datatype Arm = FixedSeed | RuleBasedEvolver | SelfEvolve

  /** A binding of the plan; `arm` is absent for a provider outside the three arms. */
  datatype Binding = Binding(variantId: string, seedId: string, arm: Option<Arm>)

  /** The metrics of an observation the estimands use; an absent block count is zero. */
  datatype Metrics = Metrics(utility: Option<real>, blocked: real)

  datatype Observation = Observation(variantId: string, repetition: nat, metrics: Metrics) {
    function At(): Key { Key(variantId, repetition) }
  }

  datatype Key = Key(variantId: string, repetition: nat)

  type Table = map<Key, Metrics>

  // ---- Seed groups ----

  /** The variant that plays an arm for a seed: the last binding declaring it. */
  function VariantOf(bindings: seq<Binding>, seed: string, arm: Arm): Option<string> {
    if bindings == [] then None
    else
      var last := bindings[|bindings| - 1];
      if last.seedId == seed && last.arm == Some(arm) then Some(last.variantId)
      else VariantOf(bindings[..|bindings| - 1], seed, arm)
  }

  lemma {:induction false} VariantIsLast(bindings: seq<Binding>, i: nat, arm: Arm)
    requires i < |bindings| && bindings[i].arm == Some(arm)
    requires forall j | i < j < |bindings| :: bindings[j].seedId != bindings[i].seedId || bindings[j].arm != Some(arm)
    ensures VariantOf(bindings, bindings[i].seedId, arm) == Some(bindings[i].variantId)
  {
    if i < |bindings| - 1 { VariantIsLast(bindings[..|bindings| - 1], i, arm); }
  }

  type Groups = map<string, map<Arm, string>>

  function VariantIn(groups: Groups, seed: string, arm: Arm): Option<string> {
    if seed in groups && arm in groups[seed] then Some(groups[seed][arm]) else None
  }

  ghost predicate GroupsAre(groups: Groups, bindings: seq<Binding>, wanted: set<Arm>) {
    && (forall s, a :: VariantIn(groups, s, a) == if a in wanted then VariantOf(bindings, s, a) else None)
    && (forall s | s in groups :: exists a :: a in groups[s])
  }

  function AddVariant(groups: Groups, seed: string, arm: Arm, variantId: string): Groups {
    var group := if seed in groups then groups[seed] else map[];
    groups[seed := group[arm := variantId]]
  }

  lemma AddVariantKeeps(groups: Groups, bindings: seq<Binding>, wanted: set<Arm>, b: Binding)
    requires GroupsAre(groups, bindings, wanted) && b.arm.Some? && b.arm.value in wanted
    ensures GroupsAre(AddVariant(groups, b.seedId, b.arm.value, b.variantId), bindings + [b], wanted)
  {
    var more := AddVariant(groups, b.seedId, b.arm.value, b.variantId);
    assert (bindings + [b])[..|bindings|] == bindings;
    forall s, a
      ensures VariantIn(more, s, a) == if a in wanted then VariantOf(bindings + [b], s, a) else None
    {
      assert VariantIn(groups, s, a) == if a in wanted then VariantOf(bindings, s, a) else None;
    }
    forall s | s in more ensures exists a :: a in more[s] {
      if s == b.seedId {
        assert b.arm.value in more[s];
      } else {
        var a :| a in groups[s];
      }
    }
  }

  method Group(bindings: seq<Binding>, wanted: set<Arm>) returns (groups: Groups)
    ensures GroupsAre(groups, bindings, wanted)
  {
    groups := map[];
    for i := 0 to |bindings|
      invariant GroupsAre(groups, bindings[..i], wanted)
    {
      var b := bindings[i];
      assert bindings[..i + 1] == bindings[..i] + [b] && bindings[..i + 1][..i] == bindings[..i];
      if b.arm.None? || b.arm.value !in wanted { continue; }
      AddVariantKeeps(groups, bindings[..i], wanted, b);
      groups := AddVariant(groups, b.seedId, b.arm.value, b.variantId);
    }
    assert bindings[..|bindings|] == bindings;
  }

  predicate Paired(bindings: seq<Binding>, reference: Arm, treatment: Arm, seed: string) {
    VariantOf(bindings, seed, reference).Some? && VariantOf(bindings, seed, treatment).Some?
  }

  /** The seeds that declare both arms. */
  ghost function Seeds(bindings: seq<Binding>, reference: Arm, treatment: Arm): set<string> {
    set b | b in bindings && Paired(bindings, reference, treatment, b.seedId) :: b.seedId
  }

  lemma {:induction false} VariantIsBound(bindings: seq<Binding>, seed: string, arm: Arm)
    requires VariantOf(bindings, seed, arm).Some?
    ensures exists b :: b in bindings && b.seedId == seed
  {
    var last := bindings[|bindings| - 1];
    if last.seedId == seed && last.arm == Some(arm) {
      assert last in bindings;
    } else {
      VariantIsBound(bindings[..|bindings| - 1], seed, arm);
      var b :| b in bindings[..|bindings| - 1] && b.seedId == seed;
      assert b in bindings;
    }
  }

  lemma SeedsArePaired(bindings: seq<Binding>, reference: Arm, treatment: Arm)
    ensures forall s :: s in Seeds(bindings, reference, treatment) <==> Paired(bindings, reference, treatment, s)
  {
    forall s | Paired(bindings, reference, treatment, s) ensures s in Seeds(bindings, reference, treatment) {
      VariantIsBound(bindings, s, reference);
    }
  }

  // ---- Units ----

  function UtilityAt(table: Table, variantId: string, repetition: nat): Option<real> {
    if Key(variantId, repetition) in table then table[Key(variantId, repetition)].utility else None
  }

  /** The difference of two arms, when both utilities are there and neither is blocked. */
  function Delta(table: Table, reference: string, treatment: string, repetition: nat): Option<real> {
    var r, t := UtilityAt(table, reference, repetition), UtilityAt(table, treatment, repetition);
    if r.None? || t.None? then None
    else if table[Key(reference, repetition)].blocked > 0.0 || table[Key(treatment, repetition)].blocked > 0.0 then None
    else Some(t.value - r.value)
  }

  function SeedDelta(bindings: seq<Binding>, table: Table, reference: Arm, treatment: Arm, seed: string,
                     repetition: nat): Option<real> {
    var r, t := VariantOf(bindings, seed, reference), VariantOf(bindings, seed, treatment);
    if r.None? || t.None? then None else Delta(table, r.value, t.value, repetition)
  }

  /** Why a seed that declares both arms has no difference in a repetition. */
  datatype Fault = Missing | Blocked

  function SeedFault(bindings: seq<Binding>, table: Table, reference: Arm, treatment: Arm, seed: string,
                     repetition: nat): Option<Fault> {
    var r, t := VariantOf(bindings, seed, reference), VariantOf(bindings, seed, treatment);
    if r.None? || t.None? then None
    else if UtilityAt(table, r.value, repetition).None? || UtilityAt(table, t.value, repetition).None?
    then Some(Missing)
    else if table[Key(r.value, repetition)].blocked > 0.0 || table[Key(t.value, repetition)].blocked > 0.0
    then Some(Blocked)
    else None
  }

  lemma FaultIsGap(bindings: seq<Binding>, table: Table, reference: Arm, treatment: Arm, seed: string, repetition: nat)
    requires Paired(bindings, reference, treatment, seed)
    ensures SeedFault(bindings, table, reference, treatment, seed, repetition).Some? <==>
            SeedDelta(bindings, table, reference, treatment, seed, repetition).None?
  {
  }

  function Deltas(bindings: seq<Binding>, table: Table, reference: Arm, treatment: Arm, seeds: set<string>,
                  repetition: nat): map<string, real> {
    map s | s in seeds && SeedDelta(bindings, table, reference, treatment, s, repetition).Some? ::
      SeedDelta(bindings, table, reference, treatment, s, repetition).value
  }

  /** The sum of the values; the order does not matter. */
  ghost function Total(values: map<string, real>): real
    decreases |values|
  {
    if values == map[] then 0.0
    else
      var s :| s in values;
      values[s] + Total(values - {s})
  }

  lemma {:induction false} TotalWithout(values: map<string, real>, s: string)
    requires s in values
    ensures Total(values) == values[s] + Total(values - {s})
    decreases |values|
  {
    var first :| first in values && Total(values) == values[first] + Total(values - {first});
    if first != s {
      TotalWithout(values - {first}, s);
      TotalWithout(values - {s}, first);
      assert values - {first} - {s} == values - {s} - {first};
    }
  }

  method Sum(values: map<string, real>) returns (total: real)
    ensures total == Total(values)
  {
    total := 0.0;
    var rest := values;
    while rest != map[]
      invariant total + Total(rest) == Total(values)
      decreases |rest|
    {
      var s :| s in rest;
      TotalWithout(rest, s);
      total := total + rest[s];
      rest := rest - {s};
    }
  }

  /** The value of one repetition: the mean over the seeds, when every seed is present
      and unblocked. */
  ghost function Unit(bindings: seq<Binding>, table: Table, reference: Arm, treatment: Arm,
                      repetition: nat): Option<real> {
    var seeds := Seeds(bindings, reference, treatment);
    var deltas := Deltas(bindings, table, reference, treatment, seeds, repetition);
    if seeds == {} || deltas.Keys != seeds then None else Some(Total(deltas) / |seeds| as real)
  }

  function Extend(values: seq<real>, unit: Option<real>): seq<real> {
    if unit.Some? then values + [unit.value] else values
  }

  ghost function Units(bindings: seq<Binding>, table: Table, reference: Arm, treatment: Arm,
                       repetitions: nat): seq<real> {
    if repetitions == 0 then []
    else
      Extend(Units(bindings, table, reference, treatment, repetitions - 1),
             Unit(bindings, table, reference, treatment, repetitions - 1))
  }

  function SumOf(values: seq<real>): real {
    if values == [] then 0.0 else SumOf(values[..|values| - 1]) + values[|values| - 1]
  }

  function Mean(values: seq<real>): real
    requires values != []
  {
    SumOf(values) / |values| as real
  }

  method Average(values: seq<real>) returns (mean: real)
    requires values != []
    ensures mean == Mean(values)
  {
    var total := 0.0;
    for i := 0 to |values|
      invariant total == SumOf(values[..i])
    {
      assert values[..i + 1][..i] == values[..i];
      total := total + values[i];
    }
    assert values[..|values|] == values;
    mean := total / |values| as real;
  }

  // ---- Sample counts ----

  /** Every seed of the pair is present and unblocked in the repetition. */
  ghost predicate Complete(bindings: seq<Binding>, table: Table, reference: Arm, treatment: Arm, repetition: nat) {
    forall s | s in Seeds(bindings, reference, treatment) ::
      SeedDelta(bindings, table, reference, treatment, s, repetition).Some?
  }

  lemma UnitExists(bindings: seq<Binding>, table: Table, reference: Arm, treatment: Arm, repetition: nat)
    ensures Unit(bindings, table, reference, treatment, repetition).Some? <==>
            Seeds(bindings, reference, treatment) != {} && Complete(bindings, table, reference, treatment, repetition)
  {
    var seeds := Seeds(bindings, reference, treatment);
    var deltas := Deltas(bindings, table, reference, treatment, seeds, repetition);
    if deltas.Keys == seeds {
      forall s | s in seeds ensures SeedDelta(bindings, table, reference, treatment, s, repetition).Some? {
        assert s in deltas.Keys;
      }
    }
  }

  ghost function CompleteRepetitions(bindings: seq<Binding>, table: Table, reference: Arm, treatment: Arm,
                                     repetitions: nat): set<nat> {
    set r: nat | r < repetitions && Complete(bindings, table, reference, treatment, r)
  }

  lemma OneMoreRepetition(bindings: seq<Binding>, table: Table, reference: Arm, treatment: Arm, n: nat)
    ensures var before := CompleteRepetitions(bindings, table, reference, treatment, n);
            && n !in before
            && CompleteRepetitions(bindings, table, reference, treatment, n + 1) ==
               if Complete(bindings, table, reference, treatment, n) then before + {n} else before
  {
  }

  lemma ExtendLength(values: seq<real>, unit: Option<real>)
    ensures |Extend(values, unit)| == if unit.Some? then |values| + 1 else |values|
  {
  }

  lemma OneMoreElement(before: set<nat>, n: nat)
    requires n !in before
    ensures |before + {n}| == |before| + 1
  {
  }

  lemma OneMoreSample(bindings: seq<Binding>, table: Table, reference: Arm, treatment: Arm, n: nat)
    requires Seeds(bindings, reference, treatment) != {}
    requires |Units(bindings, table, reference, treatment, n)| ==
             |CompleteRepetitions(bindings, table, reference, treatment, n)|
    ensures |Units(bindings, table, reference, treatment, n + 1)| ==
            |CompleteRepetitions(bindings, table, reference, treatment, n + 1)|
  {
    UnitExists(bindings, table, reference, treatment, n);
    OneMoreRepetition(bindings, table, reference, treatment, n);
    OneMoreElement(CompleteRepetitions(bindings, table, reference, treatment, n), n);
    ExtendLength(Units(bindings, table, reference, treatment, n), Unit(bindings, table, reference, treatment, n));
  }

  /** The sample count is the number of complete repetitions: the independent unit is the
      repetition, never a repetition and a seed. */
  lemma {:induction false} SampleCount(bindings: seq<Binding>, table: Table, reference: Arm, treatment: Arm,
                                       repetitions: nat)
    requires Seeds(bindings, reference, treatment) != {}
    ensures |Units(bindings, table, reference, treatment, repetitions)| ==
            |CompleteRepetitions(bindings, table, reference, treatment, repetitions)|
  {
    if repetitions == 0 {
      NoSamples(bindings, table, reference, treatment);
    } else {
      var n := repetitions - 1;
      SampleCount(bindings, table, reference, treatment, n);
      OneMoreSample(bindings, table, reference, treatment, n);
    }
  }

  lemma NoSamples(bindings: seq<Binding>, table: Table, reference: Arm, treatment: Arm)
    ensures CompleteRepetitions(bindings, table, reference, treatment, 0) == {}
  {
  }
}
