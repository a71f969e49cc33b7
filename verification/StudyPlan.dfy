/** The frozen Core-6 protocol and the plan compiled from a protocol: which variant
    plays which arm for which seed, and that a confirmatory protocol leaves no choice. */
module StudyPlan {
  import opened Options
  import opened MatchedUnits

  datatype Kind = Control | Treatment | ExternalBaseline | Ablation

  datatype Variant = Variant(variantId: string, kind: Kind, implementationId: string)

  datatype Protocol = Protocol(variants: seq<Variant>, repetitions: nat, budgetTiers: set<string>)

  const CORE6_REPETITIONS := 12

  predicate IsCoreSeed(seed: string) {
    seed == "C" || seed == "X"
  }

  function ArmName(arm: Arm): string {
    match arm
    case FixedSeed => "FixedSeed"
    case RuleBasedEvolver => "RuleBasedEvolver"
    case SelfEvolve => "SelfEvolve"
  }

  function CoreId(arm: Arm, seed: string): string {
    (match arm
     case FixedSeed => "Fixed"
     case RuleBasedEvolver => "Rule"
     case SelfEvolve => "Self") + "-" + seed
  }

  /** The declared variants: each arm for each of the seeds C and X. */
  function CoreVariant(arm: Arm, seed: string): Variant {
    Variant(CoreId(arm, seed), if arm == FixedSeed then Control else Treatment, "sem-paper" + "." + ArmName(arm))
  }

  const CORE6 := [
    CoreVariant(FixedSeed, "C"), CoreVariant(RuleBasedEvolver, "C"), CoreVariant(SelfEvolve, "C"),
    CoreVariant(FixedSeed, "X"), CoreVariant(RuleBasedEvolver, "X"), CoreVariant(SelfEvolve, "X")
  ]

  /** The protocol declares the six variants and no others, once each, for twelve
      repetitions in the core tier. */
  predicate IsConfirmatory(p: Protocol) {
    && (forall v | v in p.variants :: v in CORE6) && (forall v | v in CORE6 :: v in p.variants)
    && |p.variants| == |CORE6| && p.repetitions == CORE6_REPETITIONS && p.budgetTiers == {"core"}
  }

  /** The protocol in full: six variants and no others, twelve repetitions, the core tier. */
  lemma ConfirmatoryExactly(p: Protocol)
    ensures IsConfirmatory(p) <==>
            && |p.variants| == 6 && p.repetitions == 12 && p.budgetTiers == {"core"}
            && forall v :: v in p.variants <==>
                 v in {Variant("Fixed-C", Control, "sem-paper.FixedSeed"),
                       Variant("Rule-C", Treatment, "sem-paper.RuleBasedEvolver"),
                       Variant("Self-C", Treatment, "sem-paper.SelfEvolve"),
                       Variant("Fixed-X", Control, "sem-paper.FixedSeed"),
                       Variant("Rule-X", Treatment, "sem-paper.RuleBasedEvolver"),
                       Variant("Self-X", Treatment, "sem-paper.SelfEvolve")}
  {
    CoreVariantTexts();
    forall v ensures v in CORE6 <==>
      v == CORE6[0] || v == CORE6[1] || v == CORE6[2] || v == CORE6[3] || v == CORE6[4] || v == CORE6[5] {
    }
  }

  lemma CoreVariantTexts()
    ensures CORE6[0] == Variant("Fixed-C", Control, "sem-paper.FixedSeed")
    ensures CORE6[1] == Variant("Rule-C", Treatment, "sem-paper.RuleBasedEvolver")
    ensures CORE6[2] == Variant("Self-C", Treatment, "sem-paper.SelfEvolve")
    ensures CORE6[3] == Variant("Fixed-X", Control, "sem-paper.FixedSeed")
    ensures CORE6[4] == Variant("Rule-X", Treatment, "sem-paper.RuleBasedEvolver")
    ensures CORE6[5] == Variant("Self-X", Treatment, "sem-paper.SelfEvolve")
  {
    assert CoreId(FixedSeed, "C") == "Fixed-C" && CoreId(FixedSeed, "X") == "Fixed-X";
    assert CoreId(RuleBasedEvolver, "C") == "Rule-C" && CoreId(RuleBasedEvolver, "X") == "Rule-X";
    assert CoreId(SelfEvolve, "C") == "Self-C" && CoreId(SelfEvolve, "X") == "Self-X";
    assert "sem-paper" + "." + ArmName(FixedSeed) == "sem-paper.FixedSeed";
    assert "sem-paper" + "." + ArmName(RuleBasedEvolver) == "sem-paper.RuleBasedEvolver";
    assert "sem-paper" + "." + ArmName(SelfEvolve) == "sem-paper.SelfEvolve";
  }

  ghost predicate InCore6(v: Variant) {
    exists arm, seed :: IsCoreSeed(seed) && v == CoreVariant(arm, seed)
  }

  lemma Core6Members(v: Variant)
    requires v in CORE6
    ensures InCore6(v)
  {
    var k :| 0 <= k < 6 && CORE6[k] == v;
    var arm := if k % 3 == 0 then FixedSeed else if k % 3 == 1 then RuleBasedEvolver else SelfEvolve;
    assert v == CoreVariant(arm, if k < 3 then "C" else "X");
  }

  lemma CoreIsMember(arm: Arm, seed: string)
    requires IsCoreSeed(seed)
    ensures CoreVariant(arm, seed) in CORE6
  {
    var row := match arm case FixedSeed => 0 case RuleBasedEvolver => 1 case SelfEvolve => 2;
    var k := row + if seed == "C" then 0 else 3;
    assert CORE6[k] == CoreVariant(arm, seed);
  }

  /** The part after the last separator, the whole text without one: `rsplit(c, 1)[-1]`. */
  function AfterLast(s: string, c: char): string {
    if s == [] || s[|s| - 1] == c then [] else AfterLast(s[..|s| - 1], c) + [s[|s| - 1]]
  }

  function SeedOf(variantId: string): string {
    var last := AfterLast(variantId, '-');
    if IsCoreSeed(last) then "Seed-" + last else variantId
  }

  function ArmOf(providerId: string): Option<Arm> {
    ArmNamed(AfterLast(providerId, '.'))
  }

  function ArmNamed(name: string): Option<Arm> {
    if name == ArmName(FixedSeed) || name == "fixed-memory" then Some(FixedSeed)
    else if name == ArmName(RuleBasedEvolver) || name == "candidate-memory" then Some(RuleBasedEvolver)
    else if name == ArmName(SelfEvolve) then Some(SelfEvolve)
    else None
  }

  /** The names of the three arms, two of them with an alias. */
  lemma ArmsByName(name: string)
    ensures ArmNamed(name) ==
            if name in {"FixedSeed", "fixed-memory"} then Some(FixedSeed)
            else if name in {"RuleBasedEvolver", "candidate-memory"} then Some(RuleBasedEvolver)
            else if name == "SelfEvolve" then Some(SelfEvolve)
            else None
  {
  }

  function BindingOf(v: Variant): Binding {
    Binding(v.variantId, SeedOf(v.variantId), ArmOf(v.implementationId))
  }

  /** The runtime bindings compiled from a protocol. */
  function Compile(variants: seq<Variant>): (bindings: seq<Binding>)
    ensures |bindings| == |variants|
  {
    if variants == [] then [] else Compile(variants[..|variants| - 1]) + [BindingOf(variants[|variants| - 1])]
  }

  lemma {:induction false} AfterSeparator(prefix: string, c: char, tail: string)
    requires c !in tail
    ensures AfterLast(prefix + [c] + tail, c) == tail
  {
    var s := prefix + [c] + tail;
    if tail == [] {
      assert s[|s| - 1] == c;
    } else {
      assert s[..|s| - 1] == prefix + [c] + tail[..|tail| - 1];
      AfterSeparator(prefix, c, tail[..|tail| - 1]);
    }
  }

  /** The seed is read off the end of the variant id, and is the id itself unless that end
      is one of the two core seeds; the arm is read off the end of the provider id. */
  lemma ReadOffIds(prefix: string, tail: string, name: string)
    requires '-' !in tail && '.' !in name
    ensures SeedOf(prefix + ['-'] + tail) ==
            if tail in {"C", "X"} then "Seed-" + tail else prefix + ['-'] + tail
    ensures ArmOf(prefix + ['.'] + name) == ArmNamed(name)
  {
    AfterSeparator(prefix, '-', tail);
    AfterSeparator(prefix, '.', name);
  }

  lemma ArmNames(arm: Arm)
    ensures '.' !in ArmName(arm) && ArmNamed(ArmName(arm)) == Some(arm)
  {
    assert |ArmName(FixedSeed)| == 9 && |ArmName(RuleBasedEvolver)| == 16 && |ArmName(SelfEvolve)| == 10;
    assert |"fixed-memory"| == 12 && "fixed-memory"[0] == 'f';
    assert |"candidate-memory"| == 16 && "candidate-memory"[0] == 'c';
    assert ArmName(RuleBasedEvolver)[0] == 'R';
  }

  lemma CoreBinding(arm: Arm, seed: string)
    requires IsCoreSeed(seed)
    ensures BindingOf(CoreVariant(arm, seed)) == Binding(CoreId(arm, seed), "Seed-" + seed, Some(arm))
  {
    ArmNames(arm);
    AfterSeparator("sem-paper", '.', ArmName(arm));
    var name := match arm case FixedSeed => "Fixed" case RuleBasedEvolver => "Rule" case SelfEvolve => "Self";
    AfterSeparator(name, '-', seed);
  }

  /** The variant that plays an arm for a seed of the Core-6 matrix. */
  function PlayedBy(seedId: string, arm: Arm): Option<string> {
    if seedId == "Seed-" + "C" then Some(CoreId(arm, "C"))
    else if seedId == "Seed-" + "X" then Some(CoreId(arm, "X"))
    else None
  }

  lemma SeedsDiffer()
    ensures "Seed-" + "C" != "Seed-" + "X"
  {
    assert ("Seed-" + "C")[5] == 'C' && ("Seed-" + "X")[5] == 'X';
  }

  lemma CoreVariantPlays(v: Variant, seedId: string, arm: Arm)
    requires InCore6(v) && BindingOf(v).seedId == seedId && BindingOf(v).arm == Some(arm)
    ensures PlayedBy(seedId, arm) == Some(v.variantId)
  {
    var a, seed :| IsCoreSeed(seed) && v == CoreVariant(a, seed);
    CoreBinding(a, seed);
    SeedsDiffer();
  }

  lemma VariantOfSnoc(bindings: seq<Binding>, b: Binding, seedId: string, arm: Arm)
    ensures VariantOf(bindings + [b], seedId, arm) ==
            if b.seedId == seedId && b.arm == Some(arm) then Some(b.variantId) else VariantOf(bindings, seedId, arm)
  {
    assert (bindings + [b])[..|bindings|] == bindings;
  }

  /** Every binding is one of the matrix. */
  lemma {:induction false} OnlyCoreVariants(variants: seq<Variant>, seedId: string, arm: Arm)
    requires forall i | 0 <= i < |variants| :: InCore6(variants[i])
    ensures VariantOf(Compile(variants), seedId, arm).Some? ==>
            VariantOf(Compile(variants), seedId, arm) == PlayedBy(seedId, arm)
  {
    if variants != [] {
      var front, last := variants[..|variants| - 1], variants[|variants| - 1];
      OnlyCoreVariants(front, seedId, arm);
      VariantOfSnoc(Compile(front), BindingOf(last), seedId, arm);
      if BindingOf(last).seedId == seedId && BindingOf(last).arm == Some(arm) {
        CoreVariantPlays(last, seedId, arm);
      }
    }
  }

  lemma {:induction false} BoundVariants(variants: seq<Variant>, v: Variant)
    requires v in variants && BindingOf(v).arm.Some?
    ensures VariantOf(Compile(variants), BindingOf(v).seedId, BindingOf(v).arm.value).Some?
  {
    var front, last := variants[..|variants| - 1], variants[|variants| - 1];
    assert Compile(variants)[..|variants| - 1] == Compile(front);
    if v != last { BoundVariants(front, v); }
  }

  /** A confirmatory protocol compiles to exactly the Core-6 matrix: each seed has each
      arm, played by its variant, and there is no other seed. */
  lemma CoreMatrix(p: Protocol, seedId: string, arm: Arm)
    requires IsConfirmatory(p)
    ensures VariantOf(Compile(p.variants), seedId, arm) == PlayedBy(seedId, arm)
  {
    forall i | 0 <= i < |p.variants| ensures InCore6(p.variants[i]) {
      Core6Members(p.variants[i]);
    }
    OnlyCoreVariants(p.variants, seedId, arm);
    if PlayedBy(seedId, arm).Some? {
      var seed := if seedId == "Seed-" + "C" then "C" else "X";
      CoreBinding(arm, seed);
      CoreIsMember(arm, seed);
      BoundVariants(p.variants, CoreVariant(arm, seed));
    }
  }
}
