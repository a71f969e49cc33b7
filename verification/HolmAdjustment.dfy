/** Holm's step-down adjustment as closed testing with Bonferroni tests. */
module HolmAdjustment {
  import opened Multiples
  import opened Ranking

  function Min(a: real, b: real): real { if a <= b then a else b }

  function Max(a: real, b: real): real { if a >= b then a else b }

  /** The step-down products, in rank order: the k-th smallest p-value times the
      number of comparisons not ranked before it. */
  function Products(p: seq<real>): (steps: seq<real>)
    ensures |steps| == |p|
  {
    seq(|p|, k requires 0 <= k < |p| => Times(|p| - k, p[Rank(p)[k]]))
  }

  /** The running maximum of the capped products up to rank `r`. */
  ghost function RunningMax(steps: seq<real>, r: nat): real
    requires r < |steps|
  {
    Max(if r == 0 then 0.0 else RunningMax(steps, r - 1), Min(1.0, steps[r]))
  }

  /** The value the provider gives to comparison `i`. */
  ghost function Adjusted(p: seq<real>, i: nat): real
    requires i < |p|
  {
    RunningMax(Products(p), Place(p, i))
  }

  /** The loop of the statistics provider: every adjusted value starts as the zero
      the raw comparison carries and is overwritten in rank order. */
  method Adjust(p: seq<real>) returns (adjusted: seq<real>)
    ensures |adjusted| == |p|
    ensures forall i | 0 <= i < |p| :: adjusted[i] == Adjusted(p, i)
  {
    var ordered := Rank(p);
    var steps := Products(p);
    adjusted := seq(|p|, _ => 0.0);
    var previous := 0.0;
    for rank := 0 to |p|
      invariant |adjusted| == |p|
      invariant previous == if rank == 0 then 0.0 else RunningMax(steps, rank - 1)
      invariant forall i | 0 <= i < |p| && Place(p, i) < rank :: adjusted[i] == RunningMax(steps, Place(p, i))
    {
      var value := Min(1.0, steps[rank]);
      previous := Max(previous, value);
      PlaceOfRank(p, rank);
      adjusted := adjusted[ordered[rank] := previous];
    }
  }

  ghost predicate Probabilities(p: seq<real>) {
    forall i | 0 <= i < |p| :: 0.0 <= p[i] <= 1.0
  }

  /** The Bonferroni test of the intersection hypothesis `J`. */
  ghost predicate LocalTest(p: seq<real>, J: set<nat>, alpha: real) {
    exists j :: j in J && j < |p| && Times(|J|, p[j]) <= alpha
  }

  ghost predicate Hypothesis(p: seq<real>, J: set<nat>) {
    forall j | j in J :: j < |p|
  }

  /** Closed testing: every intersection hypothesis containing `i` is rejected. */
  ghost predicate RejectedByClosure(p: seq<real>, i: nat, alpha: real) {
    forall J: set<nat> | i in J && Hypothesis(p, J) :: LocalTest(p, J, alpha)
  }

  lemma {:induction false} RunningMaxAtMost(steps: seq<real>, r: nat, alpha: real)
    requires r < |steps| && alpha < 1.0
    ensures RunningMax(steps, r) <= alpha <==>
            0.0 <= alpha && forall k | 0 <= k <= r :: steps[k] <= alpha
  {
    if r > 0 {
      RunningMaxAtMost(steps, r - 1, alpha);
    }
  }

  /** The comparisons ranked `k` or later: the hypothesis that the step at rank `k` tests. */
  ghost function Tail(p: seq<real>, k: nat): (J: set<nat>)
    requires k <= |p|
  {
    SuffixSet(Rank(p), k)
  }

  lemma InTail(p: seq<real>, k: nat, j: nat)
    requires k <= |p|
    ensures j in Tail(p, k) <==> j < |p| && k <= Place(p, j)
  {
    if j in Tail(p, k) {
      var l :| k <= l < |p| && Rank(p)[l] == j;
      PlaceOfRank(p, l);
    }
  }

  lemma TailSize(p: seq<real>, k: nat)
    requires k <= |p|
    ensures |Tail(p, k)| == |p| - k
  {
    forall i, j | 0 <= i < j < |p| ensures Rank(p)[i] != Rank(p)[j] {
      PlaceOfRank(p, i);
      PlaceOfRank(p, j);
    }
    SuffixSetSize(Rank(p), k);
  }

  /** The smallest member of a hypothesis containing `i` comes no later than `i`. */
  lemma FirstRanked(p: seq<real>, i: nat, J: set<nat>) returns (k: nat)
    requires i in J && Hypothesis(p, J)
    ensures k <= Place(p, i) && Rank(p)[k] in J
    ensures J <= Tail(p, k)
  {
    k := 0;
    while Rank(p)[k] !in J
      invariant 0 <= k <= Place(p, i)
      invariant forall l | 0 <= l < k :: Rank(p)[l] !in J
      decreases Place(p, i) - k
    {
      k := k + 1;
    }
    forall j | j in J ensures j in Tail(p, k) {
      InTail(p, k, j);
    }
  }

  /** A rejected comparison forces the local test of any hypothesis containing it:
      the hypothesis's first-ranked member carries it. */
  lemma RejectedLocally(p: seq<real>, i: nat, J: set<nat>, alpha: real)
    requires Probabilities(p) && alpha < 1.0
    requires i in J && Hypothesis(p, J)
    requires forall k | 0 <= k <= Place(p, i) :: Products(p)[k] <= alpha
    ensures LocalTest(p, J, alpha)
  {
    var k := FirstRanked(p, i, J);
    SubsetSize(J, Tail(p, k));
    TailSize(p, k);
    var j := Rank(p)[k];
    assert Products(p)[k] <= alpha;
    TimesMonotone(|J|, |p| - k, p[j], p[j]);
  }

  lemma TailNotBelow(p: seq<real>, k: nat, j: nat)
    requires k < |p| && j in Tail(p, k)
    ensures j < |p| && p[Rank(p)[k]] <= p[j]
  {
    InTail(p, k, j);
    if k < Place(p, j) { RankIncreases(p, k, Place(p, j)); }
  }

  /** Conversely the test of each tail bounds the product at its rank. */
  lemma TailBoundsProduct(p: seq<real>, k: nat, alpha: real)
    requires Probabilities(p) && k < |p|
    requires LocalTest(p, Tail(p, k), alpha)
    ensures Products(p)[k] <= alpha
  {
    TailSize(p, k);
    var j :| j in Tail(p, k) && j < |p| && Times(|p| - k, p[j]) <= alpha;
    TailNotBelow(p, k, j);
    var first := Rank(p)[k];
    TimesMonotone(|p| - k, |p| - k, p[first], p[j]);
  }

  lemma TailIsHypothesis(p: seq<real>, k: nat)
    requires k <= |p|
    ensures Hypothesis(p, Tail(p, k))
  {
    forall j | j in Tail(p, k) ensures j < |p| { InTail(p, k, j); }
  }

  /** Holm is closed testing: an adjusted p-value is at most `alpha` exactly when
      every set of comparisons containing it passes its own Bonferroni test. */
  lemma HolmIsClosedTesting(p: seq<real>, i: nat, alpha: real)
    requires Probabilities(p) && i < |p| && alpha < 1.0
    ensures Adjusted(p, i) <= alpha <==> RejectedByClosure(p, i, alpha)
  {
    var r := Place(p, i);
    RunningMaxAtMost(Products(p), r, alpha);
    if Adjusted(p, i) <= alpha {
      forall J: set<nat> | i in J && Hypothesis(p, J) ensures LocalTest(p, J, alpha) {
        RejectedLocally(p, i, J, alpha);
      }
    }
    if RejectedByClosure(p, i, alpha) {
      forall k | 0 <= k <= r ensures Products(p)[k] <= alpha {
        InTail(p, k, i);
        TailIsHypothesis(p, k);
        TailBoundsProduct(p, k, alpha);
      }
      assert LocalTest(p, {i}, alpha);
      TimesMonotone(1, 1, 0.0, p[i]);
    }
  }

  /** A member of the set with set size times p-value at most alpha. */
  ghost predicate BonferroniRejects(p: seq<real>, J: set<nat>, alpha: real) {
    exists j :: j in J && j < |p| && |J| as real * p[j] <= alpha
  }

  lemma LocalTestMeans(p: seq<real>, J: set<nat>, alpha: real)
    ensures LocalTest(p, J, alpha) <==> BonferroniRejects(p, J, alpha)
  {
    forall j | j in J && j < |p| ensures Times(|J|, p[j]) == |J| as real * p[j] { IsProduct(|J|, p[j]); }
  }

  /** The same with the products written out. */
  lemma HolmRejectsExactly(p: seq<real>, i: nat, alpha: real)
    requires Probabilities(p) && i < |p| && alpha < 1.0
    ensures Adjusted(p, i) <= alpha <==>
            forall J: set<nat> | i in J && Hypothesis(p, J) :: BonferroniRejects(p, J, alpha)
  {
    HolmIsClosedTesting(p, i, alpha);
    forall J: set<nat> ensures LocalTest(p, J, alpha) <==> BonferroniRejects(p, J, alpha) {
      LocalTestMeans(p, J, alpha);
    }
  }

  lemma {:induction false} RunningMaxAtMostOne(steps: seq<real>, r: nat)
    requires r < |steps|
    ensures 0.0 <= RunningMax(steps, r) <= 1.0
  {
    if r > 0 {
      RunningMaxAtMostOne(steps, r - 1);
    }
  }

  /** Two adjusted values compare as their rejection thresholds do. */
  lemma CompareByClosure(p: seq<real>, i: nat, q: seq<real>, j: nat)
    requires Probabilities(p) && i < |p| && Probabilities(q) && j < |q|
    requires forall alpha: real | alpha < 1.0 && RejectedByClosure(q, j, alpha) ::
               RejectedByClosure(p, i, alpha)
    ensures Adjusted(p, i) <= Adjusted(q, j)
  {
    RunningMaxAtMostOne(Products(p), Place(p, i));
    var alpha := Adjusted(q, j);
    if alpha < 1.0 {
      HolmIsClosedTesting(q, j, alpha);
      HolmIsClosedTesting(p, i, alpha);
    }
  }

  lemma SingletonTest(p: seq<real>, i: nat, alpha: real)
    requires i < |p| && RejectedByClosure(p, i, alpha)
    ensures p[i] <= alpha
  {
    assert LocalTest(p, {i}, alpha);
    assert Times(1, p[i]) == Times(0, p[i]) + p[i];
  }

  /** The adjusted values are capped at one, at least the raw value and at most
      the plain Bonferroni value. */
  lemma AdjustedBounds(p: seq<real>, i: nat)
    requires Probabilities(p) && i < |p|
    ensures p[i] <= Adjusted(p, i) <= Bonferroni(|p|, p[i])
  {
    AdjustedWithin(p, i);
    BonferroniTimes(|p|, p[i]);
  }

  function Bonferroni(n: nat, x: real): real {
    Min(1.0, n as real * x)
  }

  lemma BonferroniTimes(n: nat, x: real)
    ensures Min(1.0, Times(n, x)) == Bonferroni(n, x)
  {
    IsProduct(n, x);
  }

  lemma AdjustedAtLeast(p: seq<real>, i: nat)
    requires Probabilities(p) && i < |p|
    ensures p[i] <= Adjusted(p, i) <= 1.0
  {
    RunningMaxAtMostOne(Products(p), Place(p, i));
    var alpha := Adjusted(p, i);
    if alpha < 1.0 {
      HolmIsClosedTesting(p, i, alpha);
      SingletonTest(p, i, alpha);
    }
  }

  lemma AdjustedWithin(p: seq<real>, i: nat)
    requires Probabilities(p) && i < |p|
    ensures p[i] <= Adjusted(p, i) <= Min(1.0, Times(|p|, p[i]))
  {
    AdjustedAtLeast(p, i);
    var bound := Times(|p|, p[i]);
    if bound < 1.0 {
      TimesMonotone(0, |p|, p[i], p[i]);
      forall J: set<nat> | i in J && Hypothesis(p, J) ensures LocalTest(p, J, bound) {
        HypothesisSize(p, J);
        TimesMonotone(|J|, |p|, p[i], p[i]);
      }
      HolmIsClosedTesting(p, i, bound);
    }
  }

  lemma HypothesisSize(p: seq<real>, J: set<nat>)
    requires Hypothesis(p, J)
    ensures |J| <= |p|
  {
    forall j | j in J ensures j in Tail(p, 0) { InTail(p, 0, j); }
    SubsetSize(J, Tail(p, 0));
    TailSize(p, 0);
  }

  /** A smaller raw p-value never gets a larger adjusted one, ties included. */
  lemma AdjustedMonotone(p: seq<real>, i: nat, j: nat)
    requires Probabilities(p) && i < |p| && j < |p| && p[i] <= p[j]
    ensures Adjusted(p, i) <= Adjusted(p, j)
  {
    forall alpha: real | alpha < 1.0 && RejectedByClosure(p, j, alpha)
      ensures RejectedByClosure(p, i, alpha)
    {
      forall J: set<nat> | i in J && Hypothesis(p, J) ensures LocalTest(p, J, alpha) {
        var K := J + {j};
        assert LocalTest(p, K, alpha);
        var l :| l in K && l < |p| && Times(|K|, p[l]) <= alpha;
        SubsetSize(J, K);
        TimesMonotone(|J|, |K|, if l in J then p[l] else p[i], p[l]);
      }
    }
    CompareByClosure(p, i, p, j);
  }

  /** `q` lists the comparisons of `p` in another order: `at` says where each of
      its positions came from. */
  ghost predicate Reorders(p: seq<real>, q: seq<real>, at: seq<nat>) {
    && |q| == |p| == |at|
    && (forall k | 0 <= k < |at| :: at[k] < |p| && q[k] == p[at[k]])
    && (forall j, k | 0 <= j < k < |at| :: at[j] != at[k])
  }

  lemma {:induction false} ImageSize(at: seq<nat>, J: set<nat>)
    requires forall j | j in J :: j < |at|
    requires forall j, k | 0 <= j < k < |at| :: at[j] != at[k]
    ensures |set j | j in J :: at[j]| == |J|
  {
    var image := set j | j in J :: at[j];
    if J == {} {
      assert image == {};
    } else {
      var x :| x in J;
      ImageSize(at, J - {x});
      var smaller := set j | j in J - {x} :: at[j];
      assert image == smaller + {at[x]};
      assert at[x] !in smaller;
    }
  }

  lemma ClosureUnderReordering(p: seq<real>, q: seq<real>, at: seq<nat>, k: nat, alpha: real)
    requires Reorders(p, q, at) && k < |q|
    requires RejectedByClosure(p, at[k], alpha)
    ensures RejectedByClosure(q, k, alpha)
  {
    forall J: set<nat> | k in J && Hypothesis(q, J) ensures LocalTest(q, J, alpha) {
      var image := set j | j in J :: at[j];
      ImageSize(at, J);
      assert at[k] in image;
      assert Hypothesis(p, image);
      assert LocalTest(p, image, alpha);
      var l :| l in image && l < |p| && Times(|image|, p[l]) <= alpha;
      var j :| j in J && at[j] == l;
      assert Times(|J|, q[j]) <= alpha;
    }
  }

  /** The inverse reordering exists. */
  lemma InverseReordering(p: seq<real>, q: seq<real>, at: seq<nat>) returns (back: seq<nat>)
    requires Reorders(p, q, at)
    ensures Reorders(q, p, back) && forall k | 0 <= k < |at| :: back[at[k]] == k
  {
    forall l: nat | l < |p| ensures l in at {
      EveryPositionHit(p, q, at, l);
    }
    back := seq(|p|, l requires 0 <= l < |p| => PositionOf(at, l));
  }

  lemma EveryPositionHit(p: seq<real>, q: seq<real>, at: seq<nat>, l: nat)
    requires Reorders(p, q, at) && l < |p|
    ensures l in at
  {
    DistinctSetSize(at);
    var hit := set x | x in at;
    if l !in at { HypothesisSize(p, hit + {l}); }
  }

  ghost function PositionOf(at: seq<nat>, l: nat): (k: nat)
    requires l in at
    ensures k < |at| && at[k] == l
  {
    var k :| 0 <= k < |at| && at[k] == l;
    k
  }

  /** Reordering the comparisons reorders the adjusted values and changes none of
      them, whatever ties there are. */
  lemma OrderIndependent(p: seq<real>, q: seq<real>, at: seq<nat>, k: nat)
    requires Probabilities(p) && Reorders(p, q, at) && k < |q|
    ensures Adjusted(q, k) == Adjusted(p, at[k])
  {
    assert Probabilities(q);
    var back := InverseReordering(p, q, at);
    forall alpha: real | alpha < 1.0 && RejectedByClosure(p, at[k], alpha)
      ensures RejectedByClosure(q, k, alpha)
    {
      ClosureUnderReordering(p, q, at, k, alpha);
    }
    CompareByClosure(q, k, p, at[k]);
    forall alpha: real | alpha < 1.0 && RejectedByClosure(q, k, alpha)
      ensures RejectedByClosure(p, at[k], alpha)
    {
      ClosureUnderReordering(q, p, back, at[k], alpha);
    }
    CompareByClosure(p, at[k], q, k);
  }
}
