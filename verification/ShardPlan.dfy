/** The frozen plan of a release regression: built by isolation class and validated
    against the inventory. */
module ShardPlan {
  import opened PlannedShards
  import opened Ranking
  import opened Sequences
  import Parallel = ParallelGroups
  import Serial = ExclusiveGroups

  // ---- The validator ----

  lemma {:induction false} MapKeys(rows: seq<File>, name: string)
    ensures name in AsMap(rows) <==> exists i :: 0 <= i < |rows| && rows[i].name == name
  {
    if rows != [] {
      var front := rows[..|rows| - 1];
      MapKeys(front, name);
      assert forall i | 0 <= i < |front| :: front[i] == rows[i];
    }
  }

  lemma MapSnoc(rows: seq<File>, row: File)
    ensures AsMap(rows + [row]) == AsMap(rows)[row.name := row.isolation]
    ensures DistinctNames(rows + [row]) <==> DistinctNames(rows) && row.name !in AsMap(rows)
  {
    var all := rows + [row];
    assert all[..|rows|] == rows;
    MapKeys(rows, row.name);
    if DistinctNames(all) {
      forall i, j | 0 <= i < j < |rows| ensures rows[i].name != rows[j].name {
        assert all[i].name != all[j].name;
      }
      forall i | 0 <= i < |rows| ensures rows[i].name != row.name {
        assert all[i].name != all[|rows|].name;
      }
    }
  }

  lemma PrefixDistinct(rows: seq<File>, more: seq<File>)
    requires DistinctNames(rows + more)
    ensures DistinctNames(rows)
  {
    forall i, j | 0 <= i < j < |rows| ensures rows[i].name != rows[j].name {
      assert (rows + more)[i].name != (rows + more)[j].name;
    }
  }

  lemma ObserveNext(before: seq<File>, rows: seq<File>, i: nat)
    requires i < |rows| && DistinctNames(before + rows[..i])
    ensures AsMap(before + rows[..i + 1]) == AsMap(before + rows[..i])[rows[i].name := rows[i].isolation]
    ensures if rows[i].name in AsMap(before + rows[..i]) then !DistinctNames(before + rows)
            else DistinctNames(before + rows[..i + 1])
  {
    MapSnoc(before + rows[..i], rows[i]);
    assert before + rows[..i] + [rows[i]] == before + rows[..i + 1];
    assert before + rows == before + rows[..i + 1] + rows[i + 1..];
    if DistinctNames(before + rows) { PrefixDistinct(before + rows[..i + 1], rows[i + 1..]); }
  }

  /** The inner loop of the validator, over the files of one shard. */
  method ObserveShard(shard: Shard, ghost before: seq<File>, seen: map<string, Isolation>)
    returns (ok: bool, observed: map<string, Isolation>)
    requires DistinctNames(before) && seen == AsMap(before)
    ensures ok <==> DistinctNames(before + Label(shard.files, shard.isolation))
    ensures ok ==> observed == AsMap(before + Label(shard.files, shard.isolation))
  {
    observed := seen;
    ghost var rows := Label(shard.files, shard.isolation);
    assert before + rows[..0] == before;
    for i := 0 to |shard.files|
      invariant DistinctNames(before + rows[..i]) && observed == AsMap(before + rows[..i])
    {
      var name := shard.files[i];
      ObserveNext(before, rows, i);
      if name in observed {
        return false, observed;
      }
      observed := observed[name := shard.isolation];
    }
    assert rows[..|shard.files|] == rows;
    ok := true;
  }

  method ExpectedFiles(inventory: seq<File>) returns (expected: map<string, Isolation>)
    ensures expected == AsMap(inventory)
  {
    expected := map[];
    for i := 0 to |inventory|
      invariant expected == AsMap(inventory[..i])
    {
      assert inventory[..i + 1][..i] == inventory[..i];
      expected := expected[inventory[i].name := inventory[i].isolation];
    }
    assert inventory[..|inventory|] == inventory;
  }

  function IndexSet(plan: seq<Shard>): set<nat> {
    if plan == [] then {} else IndexSet(plan[..|plan| - 1]) + {plan[|plan| - 1].index}
  }

  lemma {:induction false} IndexFound(plan: seq<Shard>, k: nat)
    requires k < |plan|
    ensures plan[k].index in IndexSet(plan)
  {
    if k < |plan| - 1 { IndexFound(plan[..|plan| - 1], k); }
  }

  lemma {:induction false} IndexTaken(plan: seq<Shard>, i: nat) returns (k: nat)
    requires i in IndexSet(plan)
    ensures k < |plan| && plan[k].index == i
  {
    if plan[|plan| - 1].index == i {
      k := |plan| - 1;
    } else {
      k := IndexTaken(plan[..|plan| - 1], i);
    }
  }

  /** A further shard keeps the indexes distinct exactly when its index is new. */
  lemma NewIndex(plan: seq<Shard>, k: nat)
    requires k < |plan| && DistinctIndexes(plan[..k])
    ensures plan[k].index in IndexSet(plan[..k]) ==> !DistinctIndexes(plan)
    ensures plan[k].index !in IndexSet(plan[..k]) ==> DistinctIndexes(plan[..k + 1])
    ensures IndexSet(plan[..k + 1]) == IndexSet(plan[..k]) + {plan[k].index}
  {
    var front := plan[..k];
    assert plan[..k + 1][..k] == front;
    if plan[k].index in IndexSet(front) {
      var j := IndexTaken(front, plan[k].index);
      assert plan[j].index == plan[k].index;
    } else {
      forall j | 0 <= j < k ensures front[j].index != plan[k].index { IndexFound(front, j); }
    }
  }

  method Observe(plan: seq<Shard>) returns (ok: bool, observed: map<string, Isolation>)
    ensures ok <==> DistinctIndexes(plan) && DistinctNames(Assigned(plan))
    ensures ok ==> observed == AsMap(Assigned(plan))
  {
    observed := map[];
    var indexes: set<nat> := {};
    for k := 0 to |plan|
      invariant indexes == IndexSet(plan[..k]) && DistinctIndexes(plan[..k])
      invariant DistinctNames(Assigned(plan[..k])) && observed == AsMap(Assigned(plan[..k]))
    {
      NewIndex(plan, k);
      if plan[k].index in indexes { return false, observed; }
      indexes := indexes + {plan[k].index};
      assert plan[..k + 1][..k] == plan[..k];
      ok, observed := ObserveShard(plan[k], Assigned(plan[..k]), observed);
      if !ok {
        AssignedPrefix(plan, k + 1);
        return false, observed;
      }
    }
    assert plan[..|plan|] == plan;
    ok := true;
  }

  lemma {:induction false} AssignedPrefix(plan: seq<Shard>, k: nat)
    requires k <= |plan| && !DistinctNames(Assigned(plan[..k]))
    ensures !DistinctNames(Assigned(plan))
    decreases |plan|
  {
    if k == |plan| {
      assert plan[..k] == plan;
    } else {
      var front, last := plan[..|plan| - 1], plan[|plan| - 1];
      assert plan[..k] == front[..k];
      AssignedPrefix(front, k);
      if DistinctNames(Assigned(plan)) { PrefixDistinct(Assigned(front), Label(last.files, last.isolation)); }
    }
  }

  /** The validator accepts exactly the plans that cover the inventory. */
  method Validate(plan: seq<Shard>, inventory: seq<File>) returns (ok: bool)
    ensures ok <==> Covers(plan, inventory)
  {
    var expected := ExpectedFiles(inventory);
    var distinct, observed := Observe(plan);
    if !distinct { return false; }
    if expected.Keys - observed.Keys != {} || observed.Keys - expected.Keys != {} { return false; }
    ok := forall name | name in expected.Keys :: observed[name] == expected[name];
  }

  // ---- Counting assignments ----

  function Count(rows: seq<File>, f: File): nat {
    if rows == [] then 0
    else Count(rows[..|rows| - 1], f) + if rows[|rows| - 1] == f then 1 else 0
  }

  function CountName(names: seq<string>, x: string): nat {
    if names == [] then 0
    else CountName(names[..|names| - 1], x) + if names[|names| - 1] == x then 1 else 0
  }

  lemma {:induction false} CountConcat(a: seq<File>, b: seq<File>, f: File)
    ensures Count(a + b, f) == Count(a, f) + Count(b, f)
  {
    if b == [] {
      assert a + b == a;
    } else {
      assert (a + b)[..|a + b| - 1] == a + b[..|b| - 1];
      CountConcat(a, b[..|b| - 1], f);
    }
  }

  lemma {:induction false} CountNameConcat(a: seq<string>, b: seq<string>, x: string)
    ensures CountName(a + b, x) == CountName(a, x) + CountName(b, x)
  {
    if b == [] {
      assert a + b == a;
    } else {
      assert (a + b)[..|a + b| - 1] == a + b[..|b| - 1];
      CountNameConcat(a, b[..|b| - 1], x);
    }
  }

  lemma {:induction false} CountLabel(names: seq<string>, isolation: Isolation, f: File)
    ensures Count(Label(names, isolation), f) == if f.isolation == isolation then CountName(names, f.name) else 0
  {
    if names != [] {
      CountLabel(names[..|names| - 1], isolation, f);
    }
  }

  lemma {:induction false} CountFound(rows: seq<File>, f: File)
    ensures Count(rows, f) > 0 <==> exists i :: 0 <= i < |rows| && rows[i] == f
  {
    if rows != [] {
      var front := rows[..|rows| - 1];
      CountFound(front, f);
      assert forall i | 0 <= i < |front| :: front[i] == rows[i];
    }
  }

  lemma {:induction false} CountDistinct(rows: seq<File>, f: File)
    requires DistinctNames(rows)
    ensures Count(rows, f) == if f.name in AsMap(rows) && AsMap(rows)[f.name] == f.isolation then 1 else 0
  {
    if rows != [] {
      var front, last := rows[..|rows| - 1], rows[|rows| - 1];
      assert rows == front + [last];
      MapSnoc(front, last);
      CountDistinct(front, f);
    }
  }

  ghost predicate SameCounts(a: seq<File>, b: seq<File>) {
    forall f :: Count(a, f) == Count(b, f)
  }

  /** Distinct names follow from the counts. */
  lemma {:induction false} DistinctByCount(rows: seq<File>, inventory: seq<File>)
    requires DistinctNames(inventory) && forall f :: Count(rows, f) <= Count(inventory, f)
    ensures DistinctNames(rows)
  {
    if rows != [] {
      var front, last := rows[..|rows| - 1], rows[|rows| - 1];
      forall f ensures Count(front, f) <= Count(inventory, f) {
        assert Count(rows, f) <= Count(inventory, f);
      }
      DistinctByCount(front, inventory);
      assert rows == front + [last];
      MapSnoc(front, last);
      MapKeys(front, last.name);
      if i :| 0 <= i < |front| && front[i].name == last.name {
        CountDistinct(inventory, last);
        CountDistinct(inventory, front[i]);
        CountFound(front, front[i]);
        assert Count(rows, front[i]) <= Count(inventory, front[i]);
        assert Count(rows, last) <= Count(inventory, last);
      }
    }
  }

  lemma SameCountsCover(rows: seq<File>, inventory: seq<File>)
    requires DistinctNames(inventory) && SameCounts(rows, inventory)
    ensures DistinctNames(rows) && AsMap(rows) == AsMap(inventory)
  {
    DistinctByCount(rows, inventory);
    forall name ensures name in AsMap(rows) <==> name in AsMap(inventory) {
      if name in AsMap(rows) { CountBoth(rows, inventory, File(name, AsMap(rows)[name])); }
      if name in AsMap(inventory) { CountBoth(rows, inventory, File(name, AsMap(inventory)[name])); }
    }
    forall name | name in AsMap(rows) ensures AsMap(rows)[name] == AsMap(inventory)[name] {
      CountBoth(rows, inventory, File(name, AsMap(rows)[name]));
    }
  }

  lemma CountBoth(rows: seq<File>, inventory: seq<File>, f: File)
    requires DistinctNames(rows) && DistinctNames(inventory) && SameCounts(rows, inventory)
    ensures f.name in AsMap(rows) && AsMap(rows)[f.name] == f.isolation <==>
            f.name in AsMap(inventory) && AsMap(inventory)[f.name] == f.isolation
  {
    CountDistinct(rows, f);
    CountDistinct(inventory, f);
  }

  /** A plan covers an inventory exactly when its indexes are distinct and it assigns every
      file as often as the inventory lists it, with the same class. */
  lemma CoversExactly(plan: seq<Shard>, inventory: seq<File>)
    requires DistinctNames(inventory)
    ensures Covers(plan, inventory) <==> DistinctIndexes(plan) && SameCounts(Assigned(plan), inventory)
  {
    if Covers(plan, inventory) {
      forall f ensures Count(Assigned(plan), f) == Count(inventory, f) {
        CountDistinct(Assigned(plan), f);
        CountDistinct(inventory, f);
      }
    }
    if SameCounts(Assigned(plan), inventory) { SameCountsCover(Assigned(plan), inventory); }
  }

  // ---- The builder ----

  /** The files of one class, in inventory order. */
  function Select(inventory: seq<File>, isolation: Isolation): seq<string> {
    if inventory == [] then []
    else
      var before, last := Select(inventory[..|inventory| - 1], isolation), inventory[|inventory| - 1];
      if last.isolation == isolation then before + [last.name] else before
  }

  method SelectFiles(inventory: seq<File>, isolation: Isolation) returns (names: seq<string>)
    ensures names == Select(inventory, isolation)
  {
    names := [];
    for i := 0 to |inventory|
      invariant names == Select(inventory[..i], isolation)
    {
      assert inventory[..i + 1][..i] == inventory[..i];
      if inventory[i].isolation == isolation { names := names + [inventory[i].name]; }
    }
    assert inventory[..|inventory|] == inventory;
  }

  lemma {:induction false} SelectCount(inventory: seq<File>, f: File)
    ensures Count(inventory, f) == CountName(Select(inventory, f.isolation), f.name)
  {
    if inventory != [] {
      SelectCount(inventory[..|inventory| - 1], f);
      CountNameConcat(Select(inventory[..|inventory| - 1], f.isolation), [inventory[|inventory| - 1].name], f.name);
    }
  }

  ghost predicate Positions(names: seq<string>, positions: seq<nat>) {
    forall k | 0 <= k < |positions| :: positions[k] < |names|
  }

  function NamesAt(names: seq<string>, positions: seq<nat>): (at: seq<string>)
    requires Positions(names, positions)
    ensures |at| == |positions| && forall k | 0 <= k < |positions| :: at[k] == names[positions[k]]
  {
    seq(|positions|, k requires 0 <= k < |positions| => names[positions[k]])
  }

  /** The last element of `a` taken out of both. */
  lemma TakeOut(a: seq<nat>, b: seq<nat>) returns (left: seq<nat>, right: seq<nat>)
    requires multiset(a) == multiset(b) && a != []
    ensures b == left + [a[|a| - 1]] + right
    ensures multiset(a[..|a| - 1]) == multiset(left + right)
  {
    var front, e := a[..|a| - 1], a[|a| - 1];
    assert a == front + [e];
    assert e in multiset(b);
    var k :| 0 <= k < |b| && b[k] == e;
    left, right := b[..k], b[k + 1..];
    assert b == left + [e] + right;
    assert multiset(front) == multiset(a) - multiset{e};
    assert multiset(left + right) == multiset(b) - multiset{e};
  }

  lemma CountSplit(names: seq<string>, left: seq<nat>, e: nat, right: seq<nat>, x: string)
    requires e < |names| && Positions(names, left) && Positions(names, right)
    ensures CountName(NamesAt(names, left + [e] + right), x) ==
            CountName(NamesAt(names, left + right), x) + if names[e] == x then 1 else 0
  {
    var l, r := NamesAt(names, left), NamesAt(names, right);
    assert NamesAt(names, left + [e] + right) == (l + [names[e]]) + r;
    assert NamesAt(names, left + right) == l + r;
    CountNameConcat(l + [names[e]], r, x);
    CountNameConcat(l, r, x);
  }

  lemma PositionsSplit(names: seq<string>, left: seq<nat>, e: nat, right: seq<nat>)
    requires Positions(names, left + [e] + right)
    ensures e < |names| && Positions(names, left) && Positions(names, right)
  {
    var all := left + [e] + right;
    assert all[|left|] == e;
    assert forall k | 0 <= k < |left| :: left[k] == all[k];
    assert forall k | 0 <= k < |right| :: right[k] == all[|left| + 1 + k];
  }

  lemma CountLast(names: seq<string>, a: seq<nat>, x: string)
    requires Positions(names, a) && a != []
    ensures Positions(names, a[..|a| - 1])
    ensures CountName(NamesAt(names, a), x) ==
            CountName(NamesAt(names, a[..|a| - 1]), x) + if names[a[|a| - 1]] == x then 1 else 0
  {
    assert NamesAt(names, a)[..|a| - 1] == NamesAt(names, a[..|a| - 1]);
  }

  /** Permuted positions name the same files as often. */
  lemma {:induction false} PermutedNames(names: seq<string>, a: seq<nat>, b: seq<nat>, x: string)
    requires multiset(a) == multiset(b) && Positions(names, a) && Positions(names, b)
    ensures CountName(NamesAt(names, a), x) == CountName(NamesAt(names, b), x)
    decreases |a|
  {
    if a == [] {
      assert |b| == |multiset(b)| == 0;
    } else {
      var left, right := TakeOut(a, b);
      PositionsSplit(names, left, a[|a| - 1], right);
      CountLast(names, a, x);
      PermutedNames(names, a[..|a| - 1], left + right, x);
      CountSplit(names, left, a[|a| - 1], right, x);
    }
  }

  lemma {:induction false} NamedGroups(names: seq<string>, groups: seq<seq<nat>>, named: seq<seq<string>>)
    requires forall b | 0 <= b < |groups| :: Positions(names, groups[b])
    requires |named| == |groups| && forall b | 0 <= b < |groups| :: named[b] == NamesAt(names, groups[b])
    ensures Positions(names, Parallel.Flatten(groups))
    ensures Serial.Concat(named) == NamesAt(names, Parallel.Flatten(groups))
  {
    if groups != [] {
      NamedGroups(names, groups[1..], named[1..]);
    }
  }

  function Estimates(names: seq<string>, estimate: string -> real): (est: seq<real>)
    ensures |est| == |names| && forall i | 0 <= i < |names| :: est[i] == estimate(names[i])
  {
    seq(|names|, i requires 0 <= i < |names| => estimate(names[i]))
  }

  ghost predicate NamedBy(names: seq<string>, groups: seq<seq<nat>>, named: seq<seq<string>>) {
    && |named| == |groups|
    && forall b | 0 <= b < |groups| :: Positions(names, groups[b]) && named[b] == NamesAt(names, groups[b])
  }

  /** The groups of one class are a balanced schedule of its files, each in path order. */
  ghost predicate BalancedNames(names: seq<string>, estimate: string -> real, named: seq<seq<string>>) {
    if names == [] then named == []
    else
      exists groups ::
        && NamedBy(names, groups, named)
        && Parallel.Scheduled(Estimates(names, estimate), groups, Parallel.ShardCount(|names|),
                              Parallel.MaxFiles(|names|))
        && forall b | 0 <= b < |groups| :: Parallel.Sorted(groups[b])
  }

  method ParallelNames(names: seq<string>, estimate: string -> real) returns (named: seq<seq<string>>)
    requires forall name :: estimate(name) >= 0.0
    ensures forall x :: CountName(Serial.Concat(named), x) == CountName(names, x)
    ensures forall k | 0 <= k < |named| :: 0 < |named[k]| <= Parallel.PARALLEL_SHARD_SIZE
    ensures BalancedNames(names, estimate, named)
  {
    var est := Estimates(names, estimate);
    var groups := Parallel.BalancedParallelGroups(est);
    if est == [] {
      assert names == [];
      return [];
    }
    Parallel.Capacity(|est|);
    named := seq(|groups|, b requires 0 <= b < |groups| => NamesAt(names, groups[b]));
    NamedGroups(names, groups, named);
    assert NamedBy(names, groups, named);
    forall x ensures CountName(Serial.Concat(named), x) == CountName(names, x) {
      PermutedNames(names, Parallel.Flatten(groups), Below(|names|), x);
      assert NamesAt(names, Below(|names|)) == names;
    }
  }

  /** A plan under construction: indexes count from one, and no shard is empty. */
  ghost predicate Numbered(plan: seq<Shard>) {
    forall k | 0 <= k < |plan| :: plan[k].index == k + 1 && plan[k].files != []
  }

  lemma LabelConcat(a: seq<string>, b: seq<string>, isolation: Isolation)
    ensures Label(a + b, isolation) == Label(a, isolation) + Label(b, isolation)
  {
  }

  lemma AssignedSnoc(plan: seq<Shard>, shard: Shard)
    ensures Assigned(plan + [shard]) == Assigned(plan) + Label(shard.files, shard.isolation)
  {
    assert (plan + [shard])[..|plan|] == plan;
  }

  /** One shard per group, numbered from `first` on. */
  function Shards(groups: seq<seq<string>>, isolation: Isolation, first: nat): (shards: seq<Shard>)
    ensures |shards| == |groups|
  {
    if groups == [] then []
    else
      var n := |groups| - 1;
      Shards(groups[..n], isolation, first) + [Shard(first + n, groups[n], isolation)]
  }

  /** The first `k` groups are added to the plan. */
  ghost predicate Added(plan: seq<Shard>, groups: seq<seq<string>>, isolation: Isolation, k: nat, longer: seq<Shard>)
    requires k <= |groups|
  {
    && Numbered(longer) && longer == plan + Shards(groups[..k], isolation, |plan| + 1)
    && Assigned(longer) == Assigned(plan) + Label(Serial.Concat(groups[..k]), isolation)
  }

  lemma ShardsSnoc(groups: seq<seq<string>>, isolation: Isolation, first: nat, k: nat)
    requires k < |groups|
    ensures Shards(groups[..k + 1], isolation, first) ==
            Shards(groups[..k], isolation, first) + [Shard(first + k, groups[k], isolation)]
  {
    assert groups[..k + 1][..k] == groups[..k];
  }

  lemma AssignGroup(plan: seq<Shard>, before: seq<File>, groups: seq<seq<string>>, k: nat, shard: Shard)
    requires k < |groups| && shard.files == groups[k]
    requires Assigned(plan) == before + Label(Serial.Concat(groups[..k]), shard.isolation)
    ensures Assigned(plan + [shard]) == before + Label(Serial.Concat(groups[..k + 1]), shard.isolation)
  {
    AssignedSnoc(plan, shard);
    assert groups[..k + 1] == groups[..k] + [groups[k]];
    Serial.ConcatSnoc(groups[..k], groups[k]);
    LabelConcat(Serial.Concat(groups[..k]), groups[k], shard.isolation);
    Associative(before, Label(Serial.Concat(groups[..k]), shard.isolation), Label(groups[k], shard.isolation));
  }

  lemma NumberedSnoc(plan: seq<Shard>, shard: Shard)
    requires Numbered(plan) && shard.index == |plan| + 1 && shard.files != []
    ensures Numbered(plan + [shard])
  {
  }

  lemma AddGroup(plan: seq<Shard>, groups: seq<seq<string>>, isolation: Isolation, k: nat, longer: seq<Shard>)
    requires k < |groups| && groups[k] != [] && Added(plan, groups, isolation, k, longer)
    ensures Added(plan, groups, isolation, k + 1, longer + [Shard(|longer| + 1, groups[k], isolation)])
  {
    var shard := Shard(|longer| + 1, groups[k], isolation);
    NumberedSnoc(longer, shard);
    ShardsSnoc(groups, isolation, |plan| + 1, k);
    Associative(plan, Shards(groups[..k], isolation, |plan| + 1), [shard]);
    AssignGroup(longer, Assigned(plan), groups, k, shard);
  }

  lemma NothingAdded(plan: seq<Shard>, groups: seq<seq<string>>, isolation: Isolation)
    requires Numbered(plan)
    ensures Added(plan, groups, isolation, 0, plan)
  {
    assert plan + [] == plan && Assigned(plan) + [] == Assigned(plan);
  }

  method AddGroups(plan: seq<Shard>, groups: seq<seq<string>>, isolation: Isolation) returns (longer: seq<Shard>)
    requires Numbered(plan) && forall k | 0 <= k < |groups| :: groups[k] != []
    ensures Added(plan, groups, isolation, |groups|, longer)
  {
    longer := plan;
    NothingAdded(plan, groups, isolation);
    for k := 0 to |groups|
      invariant Added(plan, groups, isolation, k, longer)
    {
      AddGroup(plan, groups, isolation, k, longer);
      longer := longer + [Shard(|longer| + 1, groups[k], isolation)];
    }
  }

  lemma AllAdded(plan: seq<Shard>, groups: seq<seq<string>>, isolation: Isolation, longer: seq<Shard>)
    requires Added(plan, groups, isolation, |groups|, longer)
    ensures Numbered(longer) && longer == plan + Shards(groups, isolation, |plan| + 1)
    ensures Assigned(longer) == Assigned(plan) + Label(Serial.Concat(groups), isolation)
  {
    assert groups[..|groups|] == groups;
  }

  /** The shards of one class are added to the plan. */
  ghost predicate ClassAdded(plan: seq<Shard>, longer: seq<Shard>, groups: seq<seq<string>>, inventory: seq<File>,
                             isolation: Isolation, estimate: string -> real) {
    && Numbered(longer) && longer == plan + Shards(groups, isolation, |plan| + 1)
    && Assigned(longer) == Assigned(plan) + Label(Serial.Concat(groups), isolation)
    && BalancedNames(Select(inventory, isolation), estimate, groups)
    && forall x :: CountName(Serial.Concat(groups), x) == CountName(Select(inventory, isolation), x)
  }

  method AddClass(plan: seq<Shard>, inventory: seq<File>, isolation: Isolation, estimate: string -> real)
    returns (longer: seq<Shard>, ghost groups: seq<seq<string>>)
    requires Numbered(plan) && forall name :: estimate(name) >= 0.0
    ensures ClassAdded(plan, longer, groups, inventory, isolation, estimate)
  {
    var selected := SelectFiles(inventory, isolation);
    var named := ParallelNames(selected, estimate);
    groups := named;
    longer := AddGroups(plan, named, isolation);
    AllAdded(plan, named, isolation, longer);
  }

  /** The shards of the two parallel classes. */
  ghost predicate ParallelPart(plan: seq<Shard>, inventory: seq<File>, estimate: string -> real) {
    exists safe, isolated ::
      && plan == Shards(safe, ParallelSafe, 1) + Shards(isolated, ProcessIsolated, |safe| + 1)
      && BalancedNames(Select(inventory, ParallelSafe), estimate, safe)
      && BalancedNames(Select(inventory, ProcessIsolated), estimate, isolated)
  }

  lemma TwoClassesBuilt(first: seq<Shard>, plan: seq<Shard>, safe: seq<seq<string>>, isolated: seq<seq<string>>,
                        inventory: seq<File>, estimate: string -> real)
    requires ClassAdded([], first, safe, inventory, ParallelSafe, estimate)
    requires ClassAdded(first, plan, isolated, inventory, ProcessIsolated, estimate)
    ensures Numbered(plan) && ParallelPart(plan, inventory, estimate)
    ensures forall f :: Count(Assigned(plan), f) == if f.isolation == Exclusive then 0 else Count(inventory, f)
  {
    assert [] + Shards(safe, ParallelSafe, 1) == Shards(safe, ParallelSafe, 1);
    assert [] + Label(Serial.Concat(safe), ParallelSafe) == Label(Serial.Concat(safe), ParallelSafe);
    ParallelCounts(inventory, Serial.Concat(safe), Serial.Concat(isolated), Assigned(plan));
  }

  method BuildParallel(inventory: seq<File>, estimate: string -> real) returns (plan: seq<Shard>)
    requires forall name :: estimate(name) >= 0.0
    ensures Numbered(plan) && ParallelPart(plan, inventory, estimate)
    ensures forall f :: Count(Assigned(plan), f) == if f.isolation == Exclusive then 0 else Count(inventory, f)
  {
    var first;
    ghost var safe, isolated;
    first, safe := AddClass([], inventory, ParallelSafe, estimate);
    plan, isolated := AddClass(first, inventory, ProcessIsolated, estimate);
    TwoClassesBuilt(first, plan, safe, isolated, inventory, estimate);
  }

  /** The plan is balanced shards of the two parallel classes, and then the files of the
      exclusive class in inventory order, cut into as few shards as the limits allow. */
  ghost predicate Optimal(plan: seq<Shard>, inventory: seq<File>, limits: Serial.Limits<string>) {
    exists front, groups ::
      && plan == front + Shards(groups, Exclusive, |front| + 1)
      && ParallelPart(front, inventory, limits.estimate)
      && limits.SplitsBest(groups, Select(inventory, Exclusive))
  }

  /** The plan built from an inventory gives every file exactly once with its class, and
      so is always accepted by the validator and by the run, and is as good as the two
      schedulers make it. */
  method Build(inventory: seq<File>, estimate: string -> real, shardSize: nat, target: real) returns (plan: seq<Shard>)
    requires DistinctNames(inventory) && shardSize > 0 && target > 0.0
    requires forall name :: estimate(name) >= 0.0
    ensures Covers(plan, inventory) && PlanSound(plan) && Numbered(plan)
    ensures Optimal(plan, inventory, Serial.Limits(shardSize, target, estimate))
  {
    var limits := Serial.Limits(shardSize, target, estimate);
    var front := BuildParallel(inventory, estimate);
    var groups := BuildExclusive(inventory, limits);
    plan := AddGroups(front, groups, Exclusive);
    AllAdded(front, groups, Exclusive, plan);
    SerialCounts(inventory, Assigned(front), Select(inventory, Exclusive));
    SameCountsCover(Assigned(plan), inventory);
    NumberedIsSound(plan);
    IsOptimal(plan, front, groups, inventory, limits);
  }

  lemma IsOptimal(plan: seq<Shard>, front: seq<Shard>, groups: seq<seq<string>>, inventory: seq<File>,
                  limits: Serial.Limits<string>)
    requires plan == front + Shards(groups, Exclusive, |front| + 1)
    requires ParallelPart(front, inventory, limits.estimate)
    requires limits.SplitsBest(groups, Select(inventory, Exclusive))
    ensures Optimal(plan, inventory, limits)
  {
  }

  lemma NumberedIsSound(plan: seq<Shard>)
    requires Numbered(plan)
    ensures PlanSound(plan) && DistinctIndexes(plan)
  {
  }

  method BuildExclusive(inventory: seq<File>, limits: Serial.Limits<string>) returns (groups: seq<seq<string>>)
    requires limits.Valid()
    ensures limits.SplitsBest(groups, Select(inventory, Exclusive))
    ensures Serial.Concat(groups) == Select(inventory, Exclusive)
    ensures forall k | 0 <= k < |groups| :: groups[k] != []
  {
    var serial := SelectFiles(inventory, Exclusive);
    groups := Serial.BoundedExclusiveGroups(serial, limits);
  }

  lemma ParallelCounts(inventory: seq<File>, parallel: seq<string>, isolated: seq<string>, rows: seq<File>)
    requires forall x :: CountName(parallel, x) == CountName(Select(inventory, ParallelSafe), x)
    requires forall x :: CountName(isolated, x) == CountName(Select(inventory, ProcessIsolated), x)
    requires rows == Label(parallel, ParallelSafe) + Label(isolated, ProcessIsolated)
    ensures forall f :: Count(rows, f) == if f.isolation == Exclusive then 0 else Count(inventory, f)
  {
    forall f ensures Count(rows, f) == if f.isolation == Exclusive then 0 else Count(inventory, f) {
      CountConcat(Label(parallel, ParallelSafe), Label(isolated, ProcessIsolated), f);
      CountLabel(parallel, ParallelSafe, f);
      CountLabel(isolated, ProcessIsolated, f);
      SelectCount(inventory, f);
    }
  }

  lemma SerialCounts(inventory: seq<File>, front: seq<File>, serial: seq<string>)
    requires forall f :: Count(front, f) == if f.isolation == Exclusive then 0 else Count(inventory, f)
    requires serial == Select(inventory, Exclusive)
    ensures SameCounts(front + Label(serial, Exclusive), inventory)
  {
    forall f ensures Count(front + Label(serial, Exclusive), f) == Count(inventory, f) {
      CountConcat(front, Label(serial, Exclusive), f);
      CountLabel(serial, Exclusive, f);
      SelectCount(inventory, f);
    }
  }
}
