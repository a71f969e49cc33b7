/** What a finished release regression says about the inventory it was planned from. */
module ReleaseCoverage {
  import opened PlannedShards
  import opened RegressionRun
  import opened ShardPlan

  /** The shard at position `k` has the file at position `j`. */
  ghost predicate Has(plan: seq<Shard>, k: nat, j: nat, name: string) {
    k < |plan| && j < |plan[k].files| && plan[k].files[j] == name
  }

  /** How many assignments come before the shard at position `k`. */
  function Offset(plan: seq<Shard>, k: nat): nat
    requires k <= |plan|
  {
    |Assigned(plan[..k])|
  }

  lemma OffsetStep(plan: seq<Shard>, k: nat)
    requires k < |plan|
    ensures Offset(plan, k + 1) == Offset(plan, k) + |plan[k].files|
    ensures Assigned(plan[..k + 1]) == Assigned(plan[..k]) + Label(plan[k].files, plan[k].isolation)
  {
    assert plan[..k + 1] == plan[..k] + [plan[k]];
    AssignedSnoc(plan[..k], plan[k]);
  }

  lemma {:induction false} PrefixOf(plan: seq<Shard>, k: nat, n: nat)
    requires k <= n <= |plan|
    ensures Assigned(plan[..k]) <= Assigned(plan[..n])
    decreases n
  {
    if k < n {
      PrefixOf(plan, k, n - 1);
      OffsetStep(plan, n - 1);
    }
  }

  lemma AssignedInPrefix(plan: seq<Shard>, k: nat, j: nat, name: string)
    requires Has(plan, k, j, name)
    ensures Offset(plan, k) + j < Offset(plan, k + 1)
    ensures Assigned(plan[..k + 1])[Offset(plan, k) + j].name == name
  {
    OffsetStep(plan, k);
  }

  lemma AssignedAt(plan: seq<Shard>, k: nat, j: nat, name: string)
    requires Has(plan, k, j, name)
    ensures Offset(plan, k) + j < Offset(plan, k + 1) <= |Assigned(plan)|
    ensures Assigned(plan)[Offset(plan, k) + j].name == name
  {
    AssignedInPrefix(plan, k, j, name);
    PrefixOf(plan, k + 1, |plan|);
    assert plan[..|plan|] == plan;
  }

  /** With distinct names a file has one place in the plan. */
  lemma OnePlace(plan: seq<Shard>, k: nat, j: nat, k': nat, j': nat, name: string)
    requires DistinctNames(Assigned(plan)) && Has(plan, k, j, name) && Has(plan, k', j', name)
    ensures k == k' && j == j'
  {
    AssignedAt(plan, k, j, name);
    AssignedAt(plan, k', j', name);
    if k < k' { PrefixOf(plan, k + 1, k'); }
    if k' < k { PrefixOf(plan, k' + 1, k); }
    assert Offset(plan, k) + j == Offset(plan, k') + j';
  }

  lemma {:induction false} AssignedSomewhere(plan: seq<Shard>, i: nat) returns (k: nat, j: nat)
    requires i < |Assigned(plan)|
    ensures Has(plan, k, j, Assigned(plan)[i].name)
  {
    var front, last := plan[..|plan| - 1], plan[|plan| - 1];
    if i < |Assigned(front)| {
      k, j := AssignedSomewhere(front, i);
    } else {
      k, j := |plan| - 1, i - |Assigned(front)|;
    }
  }

  /** The row of the run that has the file. */
  ghost predicate RowHas(r: Run, i: nat, name: string) {
    i in r.results && name in r.results[i].files
  }

  /** A run starts only with a plan that covers the inventory found at its launch. */
  lemma RunCovers(s: System)
    requires Reachable(s) && s.run.Some?
    ensures Covers(s.run.value.plan, s.run.value.inventory) && PlanSound(s.run.value.plan)
  {
    ReachableSound(s);
  }

  lemma RowOfShard(s: System, i: nat) returns (k: nat)
    requires Reachable(s) && s.run.Some? && i in s.run.value.results
    ensures k < |s.run.value.plan| && s.run.value.plan[k].index == i
    ensures s.run.value.plan[k].files == s.run.value.results[i].files
    ensures s.disk.Some? && i in s.disk.value.completed && s.disk.value.completed[i] == s.run.value.results[i]
  {
    ReachableSound(s);
    var r := s.run.value;
    assert RowFor(r.plan, i, r.results[i]);
    k :| 0 <= k < |r.plan| && r.plan[k].index == i && r.plan[k].files == r.results[i].files;
  }

  lemma OneRow(s: System, i: nat, j: nat, name: string)
    requires Reachable(s) && s.run.Some?
    requires RowHas(s.run.value, i, name) && RowHas(s.run.value, j, name)
    ensures i == j
  {
    var plan := s.run.value.plan;
    RunCovers(s);
    var k := RowOfShard(s, i);
    var k' := RowOfShard(s, j);
    var a :| 0 <= a < |plan[k].files| && plan[k].files[a] == name;
    var b :| 0 <= b < |plan[k'].files| && plan[k'].files[b] == name;
    OnePlace(plan, k, a, k', b, name);
  }

  lemma SomeRow(s: System, name: string)
    requires Reachable(s) && s.run.Some? && Finished(s.run.value) && name in AsMap(s.run.value.inventory)
    ensures exists i :: RowHas(s.run.value, i, name)
  {
    var plan := s.run.value.plan;
    RunCovers(s);
    MapKeys(Assigned(plan), name);
    var i :| 0 <= i < |Assigned(plan)| && Assigned(plan)[i].name == name;
    var k, j := AssignedSomewhere(plan, i);
    FinishedHasEveryRow(s);
    assert RowHas(s.run.value, plan[k].index, name);
  }

  lemma OnlyInventory(s: System, i: nat, name: string)
    requires Reachable(s) && s.run.Some? && RowHas(s.run.value, i, name)
    ensures name in AsMap(s.run.value.inventory)
  {
    var plan := s.run.value.plan;
    RunCovers(s);
    var k := RowOfShard(s, i);
    var j :| 0 <= j < |plan[k].files| && plan[k].files[j] == name;
    AssignedAt(plan, k, j, name);
    MapKeys(Assigned(plan), name);
  }

  /** A finished run has every file of the inventory found at its launch, and no other,
      in exactly one row, and that row is durable. */
  lemma FinishedCoversInventory(s: System, name: string)
    requires Reachable(s) && s.run.Some? && Finished(s.run.value)
    ensures name in AsMap(s.run.value.inventory) <==> exists i :: RowHas(s.run.value, i, name)
    ensures forall i, j :: RowHas(s.run.value, i, name) && RowHas(s.run.value, j, name) ==> i == j
    ensures forall i :: RowHas(s.run.value, i, name) ==>
              s.disk.Some? && i in s.disk.value.completed && s.disk.value.completed[i] == s.run.value.results[i]
  {
    if name in AsMap(s.run.value.inventory) { SomeRow(s, name); }
    forall i, j | RowHas(s.run.value, i, name) && RowHas(s.run.value, j, name) ensures i == j {
      OneRow(s, i, j, name);
    }
    forall i | RowHas(s.run.value, i, name)
      ensures name in AsMap(s.run.value.inventory)
      ensures s.disk.Some? && i in s.disk.value.completed && s.disk.value.completed[i] == s.run.value.results[i]
    {
      OnlyInventory(s, i, name);
      var k := RowOfShard(s, i);
    }
  }
}
