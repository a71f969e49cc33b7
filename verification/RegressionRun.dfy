/** The release regression as a resumable run. */
module RegressionRun {
  import opened Options
  import opened PlannedShards

  /** The result of one shard.  Its identity digest is represented by the files. */
  datatype Row = Row(index: nat, files: seq<string>, collected: nat, passed: nat, skipped: nat)

  /** The digests and the shard size that a durable state is bound to.  The inventory
      digest covers the names only. */
  datatype Key = Key(source: string, inventory: seq<string>, runtime: string, shardSize: nat)

  /** The durable document.  with_result keeps one row per index. */
  datatype Durable = Durable(key: Key, plan: seq<Shard>, completed: map<nat, Row>)

  datatype Task = Task(shard: Shard, persisted: bool)

  /** `limit` is the worker limit read at the launch, `inventory` what was found then. */
  datatype Run = Run(key: Key, inventory: seq<File>, limit: nat, plan: seq<Shard>, pending: seq<Shard>,
                     exclusive: seq<Shard>, active: seq<Task>, results: map<nat, Row>)

  /** A frozen plan, a rolling window of active shards, one durable record per finished
      shard, and stops anywhere. */
  datatype System = System(disk: Option<Durable>, run: Option<Run>)

  datatype Action =
    | Initialize(key: Key)
    | Launch(key: Key, inventory: seq<File>, built: seq<Shard>, order: seq<Shard>, limit: nat)
    | Submit
    | Persist(task: nat, collected: nat, passed: nat, skipped: nat)
    | Retire
    | Stop

  /** How many shards of the list have index `i`. */
  function CountOf(shards: seq<Shard>, i: nat): nat {
    if shards == [] then 0
    else CountOf(shards[..|shards| - 1], i) + if shards[|shards| - 1].index == i then 1 else 0
  }

  /** The state a launch works from: a matching durable one, or an empty one. */
  function Resumed(disk: Option<Durable>, key: Key): Durable {
    if disk.Some? && disk.value.key == key then disk.value else Durable(key, [], map[])
  }

  function Frozen(d: Durable, built: seq<Shard>): Durable {
    if d.plan != [] then d else d.(plan := built)
  }

  predicate Cached(d: Durable, s: Shard) {
    s.index in d.completed && d.completed[s.index].files == s.files
  }

  /** The three parts of the partition loop. */
  function CachedRows(d: Durable, plan: seq<Shard>): map<nat, Row> {
    if plan == [] then map[]
    else
      var before, s := CachedRows(d, plan[..|plan| - 1]), plan[|plan| - 1];
      if Cached(d, s) then before[s.index := d.completed[s.index]] else before
  }

  function Uncached(d: Durable, plan: seq<Shard>, exclusive: bool): seq<Shard> {
    if plan == [] then []
    else
      var before, s := Uncached(d, plan[..|plan| - 1], exclusive), plan[|plan| - 1];
      if !Cached(d, s) && s.isolation.Exclusive? == exclusive then before + [s] else before
  }

  method PartitionPending(d: Durable, plan: seq<Shard>)
    returns (results: map<nat, Row>, parallel: seq<Shard>, exclusive: seq<Shard>)
    ensures results == CachedRows(d, plan)
    ensures parallel == Uncached(d, plan, false) && exclusive == Uncached(d, plan, true)
  {
    results, parallel, exclusive := map[], [], [];
    for i := 0 to |plan|
      invariant results == CachedRows(d, plan[..i])
      invariant parallel == Uncached(d, plan[..i], false) && exclusive == Uncached(d, plan[..i], true)
    {
      assert plan[..i + 1][..i] == plan[..i];
      if Cached(d, plan[i]) {
        results := results[plan[i].index := d.completed[plan[i].index]];
      } else if !plan[i].isolation.Exclusive? {
        parallel := parallel + [plan[i]];
      } else {
        exclusive := exclusive + [plan[i]];
      }
    }
    assert plan[..|plan|] == plan;
  }

  /** How many active shards with index `i` are not recorded yet. */
  function OpenCount(active: seq<Task>, i: nat): nat {
    if active == [] then 0
    else
      var t := active[|active| - 1];
      OpenCount(active[..|active| - 1], i) + if !t.persisted && t.shard.index == i then 1 else 0
  }

  predicate AllOpen(active: seq<Task>) {
    forall i | 0 <= i < |active| :: !active[i].persisted
  }

  function StillOpen(active: seq<Task>): seq<Task> {
    if active == [] then []
    else
      var before, t := StillOpen(active[..|active| - 1]), active[|active| - 1];
      if t.persisted then before else before + [t]
  }

  /** A launch that stops before any shard starts.  A plan the state refuses is not
      written; one that does not cover the inventory is, before it is refused. */
  function Planned(disk: Option<Durable>, key: Key, built: seq<Shard>): Durable {
    var d := Resumed(disk, key);
    if d.plan == [] && !Freezable(built) then d else Frozen(d, built)
  }

  /** What an action does; one that cannot happen does nothing. */
  function Apply(s: System, a: Action): System {
    match a
    case Initialize(key) =>
      if s.run.None? then s.(disk := Some(Resumed(s.disk, key))) else s
    case Launch(key, inventory, built, order, limit) =>
      var d := Planned(s.disk, key, built);
      if s.run.Some? || key.inventory != Names(inventory) || inventory == [] || limit == 0 then s
      else if !PlanSound(d.plan) || !Covers(d.plan, inventory) then s.(disk := Some(d))
      else if multiset(order) != multiset(Uncached(d, d.plan, false)) then s
      else System(Some(d), Some(Launched(d, inventory, order, limit)))
    case Submit =>
      if s.run.None? || !AllOpen(s.run.value.active) then s
      else
        var r := s.run.value;
        if r.pending != [] && |r.active| < r.limit then
          s.(run := Some(r.(pending := r.pending[1..], active := r.active + [Task(r.pending[0], false)])))
        else if r.pending == [] && r.active == [] && r.exclusive != [] then
          s.(run := Some(r.(exclusive := r.exclusive[1..], active := [Task(r.exclusive[0], false)])))
        else s
    case Persist(k, collected, passed, skipped) =>
      if s.run.None? || s.disk.None? || k >= |s.run.value.active| || s.run.value.active[k].persisted
         || passed + skipped != collected then s
      else
        var r, d := s.run.value, s.disk.value;
        var shard := r.active[k].shard;
        var row := Row(shard.index, shard.files, collected, passed, skipped);
        System(Some(d.(completed := d.completed[shard.index := row])),
               Some(r.(active := r.active[k := Task(shard, true)], results := r.results[shard.index := row])))
    case Retire =>
      if s.run.None? then s else s.(run := Some(s.run.value.(active := StillOpen(s.run.value.active))))
    case Stop => s.(run := None)
  }

  /** The run at its start, with the pending parallel shards in the order of `order`. */
  function Launched(d: Durable, inventory: seq<File>, order: seq<Shard>, limit: nat): Run {
    Run(d.key, inventory, limit, d.plan, order, Uncached(d, d.plan, true), [], CachedRows(d, d.plan))
  }

  function Runs(actions: seq<Action>): System {
    if actions == [] then System(None, None)
    else Apply(Runs(actions[..|actions| - 1]), actions[|actions| - 1])
  }

  // ---- The invariant ----

  /** Every planned shard is in exactly one place: waiting (parallel or exclusive),
      active and not yet recorded, or recorded. */
  ghost predicate Placed(r: Run) {
    forall i: nat :: PlacedAt(r, i)
  }

  ghost predicate PlacedAt(r: Run, i: nat) {
    CountOf(r.pending, i) + OpenCount(r.active, i) + CountOf(r.exclusive, i)
      + (if i in r.results then 1 else 0) == CountOf(r.plan, i)
  }

  ghost predicate FromPlan(plan: seq<Shard>, shards: seq<Shard>) {
    forall i | 0 <= i < |shards| :: shards[i] in plan
  }

  /** Every recorded row is the durable one, for the planned shard of its index. */
  ghost predicate Recorded(d: Durable, plan: seq<Shard>, results: map<nat, Row>) {
    forall i | i in results :: i in d.completed && d.completed[i] == results[i] && RowFor(plan, i, results[i])
  }

  /** A planned shard that is durably recorded is a result of the run. */
  ghost predicate CachedAreResults(d: Durable, plan: seq<Shard>, results: map<nat, Row>) {
    forall k | 0 <= k < |plan| && Cached(d, plan[k]) :: plan[k].index in results
  }

  ghost predicate RowFor(plan: seq<Shard>, i: nat, row: Row) {
    && row.index == i && row.passed + row.skipped == row.collected
    && exists k :: 0 <= k < |plan| && plan[k].index == i && plan[k].files == row.files
  }

  /** Rows on disk are sound: filed under their own index, every test accounted for. */
  ghost predicate RowsSound(d: Durable) {
    forall i | i in d.completed :: d.completed[i].index == i
      && d.completed[i].passed + d.completed[i].skipped == d.completed[i].collected
  }

  /** The window: at most `limit` active, an exclusive shard alone. */
  ghost predicate WindowSound(active: seq<Task>, pending: seq<Shard>, limit: nat) {
    && limit > 0 && |active| <= limit
    && (forall i | 0 <= i < |active| && active[i].shard.isolation.Exclusive? :: |active| == 1 && pending == [])
  }

  ghost predicate ActiveFromPlan(plan: seq<Shard>, active: seq<Task>) {
    forall k | 0 <= k < |active| :: active[k].shard in plan
  }

  ghost predicate NoExclusive(shards: seq<Shard>) {
    forall i | 0 <= i < |shards| :: !shards[i].isolation.Exclusive?
  }

  ghost predicate RunSound(d: Durable, r: Run) {
    && d.key == r.key && d.plan == r.plan && PlanSound(r.plan) && Covers(r.plan, r.inventory)
    && Placed(r) && Recorded(d, r.plan, r.results) && CachedAreResults(d, r.plan, r.results)
    && WindowSound(r.active, r.pending, r.limit)
    && FromPlan(r.plan, r.pending) && FromPlan(r.plan, r.exclusive)
    && ActiveFromPlan(r.plan, r.active) && NoExclusive(r.pending)
  }

  ghost predicate Inv(s: System) {
    && (s.disk.Some? ==> RowsSound(s.disk.value))
    && (s.run.Some? ==> s.disk.Some? && RunSound(s.disk.value, s.run.value))
  }

  // ---- Counting shards ----

  lemma {:induction false} CountConcat(a: seq<Shard>, b: seq<Shard>, i: nat)
    ensures CountOf(a + b, i) == CountOf(a, i) + CountOf(b, i)
  {
    if b == [] {
      assert a + b == a;
    } else {
      assert (a + b)[..|a + b| - 1] == a + b[..|b| - 1];
      CountConcat(a, b[..|b| - 1], i);
    }
  }

  lemma CountOne(x: Shard, i: nat)
    ensures CountOf([x], i) == if x.index == i then 1 else 0
  {
    assert [x][..0] == [];
  }

  lemma CountHead(shards: seq<Shard>, i: nat)
    requires shards != []
    ensures CountOf(shards, i) == (if shards[0].index == i then 1 else 0) + CountOf(shards[1..], i)
  {
    assert shards == [shards[0]] + shards[1..];
    CountConcat([shards[0]], shards[1..], i);
    CountOne(shards[0], i);
  }

  lemma {:induction false} CountPermuted(a: seq<Shard>, b: seq<Shard>, i: nat)
    requires multiset(a) == multiset(b)
    ensures CountOf(a, i) == CountOf(b, i)
    decreases |a|
  {
    if a == [] {
      assert |multiset(b)| == 0;
    } else {
      var front, x := a[..|a| - 1], a[|a| - 1];
      var k := PositionIn(a, b);
      var rest := b[..k] + b[k + 1..];
      RemoveOne(a, b, k);
      CountPermuted(front, rest, i);
      CountConcat(b[..k], b[k + 1..], i);
      assert b == b[..k] + ([x] + b[k + 1..]);
      CountConcat(b[..k], [x] + b[k + 1..], i);
      CountConcat([x], b[k + 1..], i);
      CountOne(x, i);
    }
  }

  lemma PositionIn(a: seq<Shard>, b: seq<Shard>) returns (k: nat)
    requires multiset(a) == multiset(b) && a != []
    ensures k < |b| && b[k] == a[|a| - 1]
  {
    assert a[|a| - 1] in multiset(b);
    k :| 0 <= k < |b| && b[k] == a[|a| - 1];
  }

  lemma RemoveOne(a: seq<Shard>, b: seq<Shard>, k: nat)
    requires multiset(a) == multiset(b) && a != [] && k < |b| && b[k] == a[|a| - 1]
    ensures multiset(a[..|a| - 1]) == multiset(b[..k] + b[k + 1..])
  {
    var x := a[|a| - 1];
    assert a == a[..|a| - 1] + [x];
    assert b == b[..k] + [x] + b[k + 1..];
    assert multiset(a) == multiset(a[..|a| - 1]) + multiset{x};
    assert multiset(b) == multiset(b[..k] + b[k + 1..]) + multiset{x};
    assert multiset(a[..|a| - 1]) == multiset(a) - multiset{x};
  }

  /** Planned indexes are distinct. */
  lemma {:induction false} CountAtMostOne(plan: seq<Shard>, i: nat)
    requires PlanSound(plan)
    ensures CountOf(plan, i) <= 1
    ensures CountOf(plan, i) == 1 <==> exists k :: 0 <= k < |plan| && plan[k].index == i
  {
    if plan != [] {
      var front, last := plan[..|plan| - 1], plan[|plan| - 1];
      assert forall k | 0 <= k < |front| :: front[k] == plan[k];
      CountAtMostOne(front, i);
      if last.index == i {
        assert plan[|plan| - 1].index == i;
      } else if CountOf(front, i) == 1 {
        var k :| 0 <= k < |front| && front[k].index == i;
        assert plan[k].index == i;
      }
    }
  }

  // ---- Launching ----

  lemma {:induction false} UncachedFromPlan(d: Durable, plan: seq<Shard>, exclusive: bool)
    ensures forall k | 0 <= k < |Uncached(d, plan, exclusive)| ::
              && Uncached(d, plan, exclusive)[k] in plan
              && Uncached(d, plan, exclusive)[k].isolation.Exclusive? == exclusive
  {
    if plan != [] { UncachedFromPlan(d, plan[..|plan| - 1], exclusive); }
  }

  /** What is pending is in plan order. */
  lemma {:induction false} UncachedInOrder(d: Durable, plan: seq<Shard>, exclusive: bool)
    requires PlanSound(plan)
    ensures forall i, j | 0 <= i < j < |Uncached(d, plan, exclusive)| ::
              Uncached(d, plan, exclusive)[i].index < Uncached(d, plan, exclusive)[j].index
  {
    if plan != [] {
      var front, last := plan[..|plan| - 1], plan[|plan| - 1];
      UncachedInOrder(d, front, exclusive);
      UncachedFromPlan(d, front, exclusive);
      forall i | 0 <= i < |Uncached(d, front, exclusive)| ensures Uncached(d, front, exclusive)[i].index < last.index {
        var k :| 0 <= k < |front| && front[k] == Uncached(d, front, exclusive)[i];
        assert plan[k].index < plan[|front|].index;
      }
    }
  }

  lemma {:induction false} CachedRowsExact(d: Durable, plan: seq<Shard>, i: nat)
    requires i in CachedRows(d, plan)
    ensures i in d.completed && d.completed[i] == CachedRows(d, plan)[i]
    ensures exists k :: 0 <= k < |plan| && plan[k].index == i && plan[k].files == d.completed[i].files
  {
    var front, x := plan[..|plan| - 1], plan[|plan| - 1];
    if i in CachedRows(d, front) {
      CachedRowsExact(d, front, i);
      var k :| 0 <= k < |front| && front[k].index == i && front[k].files == d.completed[i].files;
      assert plan[k].index == i && plan[k].files == d.completed[i].files;
    } else {
      assert plan[|plan| - 1].index == i;
    }
  }

  lemma {:induction false} CachedInRows(d: Durable, plan: seq<Shard>, k: nat)
    requires k < |plan| && Cached(d, plan[k])
    ensures plan[k].index in CachedRows(d, plan)
  {
    if k < |plan| - 1 { CachedInRows(d, plan[..|plan| - 1], k); }
  }

  lemma UncachedCount(d: Durable, front: seq<Shard>, x: Shard, exclusive: bool, i: nat)
    ensures CountOf(Uncached(d, front + [x], exclusive), i) == CountOf(Uncached(d, front, exclusive), i) +
              if !Cached(d, x) && x.isolation.Exclusive? == exclusive && x.index == i then 1 else 0
  {
    assert (front + [x])[..|front|] == front;
    CountConcat(Uncached(d, front, exclusive), [x], i);
    CountOne(x, i);
  }

  lemma LastIndexIsNew(d: Durable, front: seq<Shard>, x: Shard)
    requires PlanSound(front + [x])
    ensures PlanSound(front) && x.index !in CachedRows(d, front)
  {
    var plan := front + [x];
    forall a, b | 0 <= a < b < |front| ensures front[a].index < front[b].index {
      assert plan[a].index < plan[b].index;
    }
    forall a | 0 <= a < |front| ensures front[a].files != [] && front[a].index < x.index {
      assert plan[a].files != [] && plan[a].index < plan[|front|].index;
    }
    if x.index in CachedRows(d, front) { CachedRowsExact(d, front, x.index); }
  }

  lemma CachedRowsSnoc(d: Durable, front: seq<Shard>, x: Shard, i: nat)
    ensures i in CachedRows(d, front + [x]) <==> i in CachedRows(d, front) || (Cached(d, x) && x.index == i)
  {
    assert (front + [x])[..|front|] == front;
  }

  /** The partition loop puts every planned shard in exactly one of its three parts. */
  lemma {:induction false} PartitionExact(d: Durable, plan: seq<Shard>, i: nat)
    requires PlanSound(plan)
    ensures CountOf(Uncached(d, plan, false), i) + CountOf(Uncached(d, plan, true), i)
              + (if i in CachedRows(d, plan) then 1 else 0) == CountOf(plan, i)
  {
    if plan != [] {
      var front, x := plan[..|plan| - 1], plan[|plan| - 1];
      assert plan == front + [x];
      LastIndexIsNew(d, front, x);
      PartitionExact(d, front, i);
      UncachedCount(d, front, x, false, i);
      UncachedCount(d, front, x, true, i);
      CachedRowsSnoc(d, front, x, i);
    }
  }

  lemma FromPlanPermuted(plan: seq<Shard>, a: seq<Shard>, b: seq<Shard>)
    requires multiset(a) == multiset(b) && FromPlan(plan, a)
    ensures FromPlan(plan, b)
  {
    forall i | 0 <= i < |b| ensures b[i] in plan { assert b[i] in multiset(a); }
  }

  lemma NoExclusivePermuted(a: seq<Shard>, b: seq<Shard>)
    requires multiset(a) == multiset(b) && NoExclusive(a)
    ensures NoExclusive(b)
  {
    forall i | 0 <= i < |b| ensures !b[i].isolation.Exclusive? { assert b[i] in multiset(a); }
  }

  /** A launch, resumed or not, takes up exactly what is not recorded. */
  lemma LaunchSound(d: Durable, inventory: seq<File>, order: seq<Shard>, limit: nat)
    requires RowsSound(d) && PlanSound(d.plan) && Covers(d.plan, inventory) && limit > 0
    requires multiset(order) == multiset(Uncached(d, d.plan, false))
    ensures RunSound(d, Launched(d, inventory, order, limit))
  {
    var plan, rows := d.plan, CachedRows(d, d.plan);
    var r := Launched(d, inventory, order, limit);
    UncachedFromPlan(d, plan, false);
    UncachedFromPlan(d, plan, true);
    FromPlanPermuted(plan, Uncached(d, plan, false), order);
    NoExclusivePermuted(Uncached(d, plan, false), order);
    forall i: nat ensures PlacedAt(r, i) {
      PartitionExact(d, plan, i);
      CountPermuted(order, Uncached(d, plan, false), i);
    }
    forall i | i in rows ensures i in d.completed && d.completed[i] == rows[i] && RowFor(plan, i, rows[i]) {
      CachedRowsExact(d, plan, i);
    }
    forall k | 0 <= k < |plan| && Cached(d, plan[k]) ensures plan[k].index in rows {
      CachedInRows(d, plan, k);
    }
  }

  // ---- Submitting ----

  lemma OpenSnoc(active: seq<Task>, t: Task, i: nat)
    ensures OpenCount(active + [t], i) == OpenCount(active, i) + if !t.persisted && t.shard.index == i then 1 else 0
  {
    assert (active + [t])[..|active|] == active;
  }

  lemma TailFromPlan(plan: seq<Shard>, shards: seq<Shard>)
    requires FromPlan(plan, shards) && shards != []
    ensures shards[0] in plan && FromPlan(plan, shards[1..])
  {
  }

  lemma StartedPlaced(r: Run, i: nat)
    requires Placed(r) && r.pending != []
    ensures PlacedAt(r.(pending := r.pending[1..], active := r.active + [Task(r.pending[0], false)]), i)
  {
    assert PlacedAt(r, i);
    OpenSnoc(r.active, Task(r.pending[0], false), i);
    CountHead(r.pending, i);
  }

  lemma WindowGrows(active: seq<Task>, pending: seq<Shard>, limit: nat)
    requires WindowSound(active, pending, limit) && NoExclusive(pending) && pending != [] && |active| < limit
    ensures WindowSound(active + [Task(pending[0], false)], pending[1..], limit) && NoExclusive(pending[1..])
  {
  }

  lemma SubmitParallel(d: Durable, r: Run)
    requires RunSound(d, r) && AllOpen(r.active) && r.pending != [] && |r.active| < r.limit
    ensures RunSound(d, r.(pending := r.pending[1..], active := r.active + [Task(r.pending[0], false)]))
  {
    var after := r.(pending := r.pending[1..], active := r.active + [Task(r.pending[0], false)]);
    TailFromPlan(r.plan, r.pending);
    WindowGrows(r.active, r.pending, r.limit);
    forall i: nat ensures PlacedAt(after, i) { StartedPlaced(r, i); }
  }

  lemma SubmittedPlaced(r: Run, i: nat)
    requires Placed(r) && r.pending == [] && r.active == [] && r.exclusive != []
    ensures PlacedAt(r.(exclusive := r.exclusive[1..], active := [Task(r.exclusive[0], false)]), i)
  {
    var t := Task(r.exclusive[0], false);
    assert [] + [t] == [t];
    assert PlacedAt(r, i);
    OpenSnoc([], t, i);
    CountHead(r.exclusive, i);
  }

  lemma SubmitExclusive(d: Durable, r: Run)
    requires RunSound(d, r) && r.pending == [] && r.active == [] && r.exclusive != []
    ensures RunSound(d, r.(exclusive := r.exclusive[1..], active := [Task(r.exclusive[0], false)]))
  {
    var after := r.(exclusive := r.exclusive[1..], active := [Task(r.exclusive[0], false)]);
    TailFromPlan(r.plan, r.exclusive);
    forall i: nat ensures PlacedAt(after, i) { SubmittedPlaced(r, i); }
  }

  // ---- Recording ----

  lemma {:induction false} OpenMarked(active: seq<Task>, k: nat, i: nat)
    requires k < |active| && !active[k].persisted
    ensures OpenCount(active, i) ==
            OpenCount(active[k := Task(active[k].shard, true)], i) + if active[k].shard.index == i then 1 else 0
  {
    var marked := active[k := Task(active[k].shard, true)];
    var front := active[..|active| - 1];
    if k == |active| - 1 {
      assert marked[..k] == front;
    } else {
      OpenMarked(front, k, i);
      assert marked[..|active| - 1] == front[k := Task(active[k].shard, true)];
    }
  }

  /** A shard that is active and not marked is not recorded. */
  lemma ActiveNotRecorded(d: Durable, r: Run, k: nat)
    requires RunSound(d, r) && k < |r.active| && !r.active[k].persisted
    ensures r.active[k].shard.index !in r.results
  {
    var i := r.active[k].shard.index;
    OpenMarked(r.active, k, i);
    CountAtMostOne(r.plan, i);
    assert PlacedAt(r, i);
  }

  lemma RecordedGrows(d: Durable, plan: seq<Shard>, results: map<nat, Row>, row: Row)
    requires Recorded(d, plan, results) && RowFor(plan, row.index, row)
    ensures Recorded(d.(completed := d.completed[row.index := row]), plan, results[row.index := row])
  {
  }

  lemma CachedGrows(d: Durable, plan: seq<Shard>, results: map<nat, Row>, row: Row)
    requires CachedAreResults(d, plan, results)
    ensures CachedAreResults(d.(completed := d.completed[row.index := row]), plan, results[row.index := row])
  {
  }

  lemma MarkedPlaced(r: Run, k: nat, row: Row)
    requires Placed(r) && k < |r.active| && !r.active[k].persisted
    requires row.index == r.active[k].shard.index && row.index !in r.results
    ensures Placed(r.(active := r.active[k := Task(r.active[k].shard, true)], results := r.results[row.index := row]))
  {
    var marked := r.(active := r.active[k := Task(r.active[k].shard, true)], results := r.results[row.index := row]);
    forall i: nat ensures PlacedAt(marked, i) {
      assert PlacedAt(r, i);
      OpenMarked(r.active, k, i);
    }
  }

  lemma PersistSound(d: Durable, r: Run, k: nat, row: Row)
    requires RowsSound(d) && RunSound(d, r)
    requires k < |r.active| && !r.active[k].persisted
    requires var x := r.active[k].shard; row.index == x.index && row.files == x.files
    requires row.passed + row.skipped == row.collected
    ensures row.index !in r.results
    ensures var after := d.(completed := d.completed[row.index := row]);
            && RowsSound(after)
            && RunSound(after, r.(active := r.active[k := Task(r.active[k].shard, true)],
                                  results := r.results[row.index := row]))
  {
    ActiveNotRecorded(d, r, k);
    assert RowFor(r.plan, row.index, row) by {
      var j :| 0 <= j < |r.plan| && r.plan[j] == r.active[k].shard;
    }
    RecordedGrows(d, r.plan, r.results, row);
    CachedGrows(d, r.plan, r.results, row);
    MarkedPlaced(r, k, row);
  }

  lemma {:induction false} RetireOpen(active: seq<Task>, i: nat)
    ensures OpenCount(StillOpen(active), i) == OpenCount(active, i)
  {
    if active != [] {
      RetireOpen(active[..|active| - 1], i);
      OpenSnoc(StillOpen(active[..|active| - 1]), active[|active| - 1], i);
    }
  }

  lemma {:induction false} RetireKeeps(active: seq<Task>)
    ensures |StillOpen(active)| <= |active| && AllOpen(StillOpen(active))
    ensures forall i | 0 <= i < |StillOpen(active)| :: StillOpen(active)[i] in active
  {
    if active != [] { RetireKeeps(active[..|active| - 1]); }
  }

  lemma RetireSound(d: Durable, r: Run)
    requires RunSound(d, r)
    ensures RunSound(d, r.(active := StillOpen(r.active)))
  {
    RetireKeeps(r.active);
    var kept := StillOpen(r.active);
    forall i: nat ensures PlacedAt(r.(active := kept), i) {
      assert PlacedAt(r, i);
      RetireOpen(r.active, i);
    }
    forall i | 0 <= i < |kept| ensures kept[i].shard in r.plan
    {
      var j :| 0 <= j < |r.active| && r.active[j] == kept[i];
    }
    forall i | 0 <= i < |kept| && kept[i].shard.isolation.Exclusive? ensures |kept| == 1 && r.pending == [] {
      var j :| 0 <= j < |r.active| && r.active[j] == kept[i];
    }
  }

  lemma LaunchKeeps(s: System, a: Action)
    requires Inv(s) && a.Launch?
    ensures Inv(Apply(s, a))
  {
    var d := Planned(s.disk, a.key, a.built);
    if s.run.None? && a.limit > 0 && PlanSound(d.plan) && Covers(d.plan, a.inventory)
       && multiset(a.order) == multiset(Uncached(d, d.plan, false)) {
      LaunchSound(d, a.inventory, a.order, a.limit);
    }
  }

  lemma PersistKeeps(s: System, k: nat, collected: nat, passed: nat, skipped: nat)
    requires Inv(s)
    ensures Inv(Apply(s, Persist(k, collected, passed, skipped)))
  {
    if s.run.Some? && k < |s.run.value.active| && !s.run.value.active[k].persisted && passed + skipped == collected {
      var shard := s.run.value.active[k].shard;
      PersistSound(s.disk.value, s.run.value, k, Row(shard.index, shard.files, collected, passed, skipped));
    }
  }

  lemma ApplyKeeps(s: System, a: Action)
    requires Inv(s)
    ensures Inv(Apply(s, a))
  {
    match a
    case Launch(_, _, _, _, _) => LaunchKeeps(s, a);
    case Submit =>
      if s.run.Some? && AllOpen(s.run.value.active) {
        var r := s.run.value;
        if r.pending != [] && |r.active| < r.limit { SubmitParallel(s.disk.value, r); }
        else if r.pending == [] && r.active == [] && r.exclusive != [] { SubmitExclusive(s.disk.value, r); }
      }
    case Persist(k, collected, passed, skipped) =>
      PersistKeeps(s, k, collected, passed, skipped);
    case Retire =>
      if s.run.Some? { RetireSound(s.disk.value, s.run.value); }
    case _ =>
  }

  ghost predicate Reachable(s: System) {
    exists actions :: s == Runs(actions)
  }

  lemma {:induction false} RunsSound(actions: seq<Action>)
    ensures Inv(Runs(actions))
  {
    if actions != [] {
      RunsSound(actions[..|actions| - 1]);
      ApplyKeeps(Runs(actions[..|actions| - 1]), actions[|actions| - 1]);
    }
  }

  lemma ReachableSound(s: System)
    requires Reachable(s)
    ensures Inv(s)
  {
    var actions :| s == Runs(actions);
    RunsSound(actions);
  }

  // ---- Main results ----

  /** During a run every planned shard is in exactly one place. */
  lemma ExactlyOnePlace(s: System, k: nat)
    requires Reachable(s) && s.run.Some? && k < |s.run.value.plan|
    ensures var r, i := s.run.value, s.run.value.plan[k].index;
            CountOf(r.pending, i) + OpenCount(r.active, i) + CountOf(r.exclusive, i)
              + (if i in r.results then 1 else 0) == 1
  {
    ReachableSound(s);
    CountAtMostOne(s.run.value.plan, s.run.value.plan[k].index);
    assert PlacedAt(s.run.value, s.run.value.plan[k].index);
  }

  /** The active window never exceeds the worker limit, and an exclusive shard runs
      with nothing beside it and nothing parallel left. */
  lemma WindowBounded(s: System)
    requires Reachable(s) && s.run.Some?
    ensures |s.run.value.active| <= s.run.value.limit
    ensures forall i | 0 <= i < |s.run.value.active| && s.run.value.active[i].shard.isolation.Exclusive? ::
              |s.run.value.active| == 1 && s.run.value.pending == []
  {
    ReachableSound(s);
  }

  /** The shard that a submit would start. */
  function NextStart(s: System): Option<Shard> {
    if Apply(s, Submit) == s || s.run.None? then None
    else if s.run.value.pending != [] then Some(s.run.value.pending[0])
    else if s.run.value.exclusive != [] then Some(s.run.value.exclusive[0])
    else None
  }

  lemma {:induction false} CountPositive(shards: seq<Shard>, k: nat)
    requires k < |shards|
    ensures CountOf(shards, shards[k].index) > 0
  {
    if k < |shards| - 1 { CountPositive(shards[..|shards| - 1], k); }
  }

  /** No shard that is durably recorded is started again. */
  lemma RecordedNeverStarts(s: System)
    requires Reachable(s) && NextStart(s).Some?
    ensures s.disk.Some? && !Cached(s.disk.value, NextStart(s).value)
  {
    ReachableSound(s);
    var r, x := s.run.value, NextStart(s).value;
    var k :| 0 <= k < |r.plan| && r.plan[k] == x;
    ExactlyOnePlace(s, k);
    if r.pending != [] { CountPositive(r.pending, 0); } else { CountPositive(r.exclusive, 0); }
  }

  /** A durable record stays what it is through any action that keeps the digests. */
  lemma RecordStays(s: System, a: Action, k: nat)
    requires Inv(s) && s.disk.Some? && k < |s.disk.value.plan| && Cached(s.disk.value, s.disk.value.plan[k])
    requires a.Initialize? || a.Launch? ==> a.key == s.disk.value.key
    ensures var d, after := s.disk.value, Apply(s, a).disk;
            && after.Some? && after.value.key == d.key && after.value.plan == d.plan
            && Cached(after.value, d.plan[k])
            && after.value.completed[d.plan[k].index] == d.completed[d.plan[k].index]
  {
    if a.Persist? && s.run.Some? && a.task < |s.run.value.active| && !s.run.value.active[a.task].persisted {
      ActiveNotRecorded(s.disk.value, s.run.value, a.task);
    }
  }

  /** A frozen plan stays through any action that keeps the digests, with rows or without. */
  lemma PlanStays(s: System, a: Action)
    requires Inv(s) && s.disk.Some? && s.disk.value.plan != []
    requires a.Initialize? || a.Launch? ==> a.key == s.disk.value.key
    ensures var after := Apply(s, a).disk;
            after.Some? && after.value.key == s.disk.value.key && after.value.plan == s.disk.value.plan
  {
  }

  ghost predicate KeepsDigests(actions: seq<Action>, key: Key) {
    forall i | 0 <= i < |actions| && (actions[i].Initialize? || actions[i].Launch?) :: actions[i].key == key
  }

  ghost function RunFrom(s: System, actions: seq<Action>): System {
    if actions == [] then s
    else Apply(RunFrom(s, actions[..|actions| - 1]), actions[|actions| - 1])
  }

  /** Over any number of runs, stopped anywhere and launched again with the same
      digests, the frozen plan and every recorded row are permanent. */
  lemma {:induction false} RecordsPermanent(s: System, actions: seq<Action>, k: nat)
    requires Inv(s) && s.disk.Some? && k < |s.disk.value.plan| && Cached(s.disk.value, s.disk.value.plan[k])
    requires KeepsDigests(actions, s.disk.value.key)
    ensures Inv(RunFrom(s, actions))
    ensures var d, after := s.disk.value, RunFrom(s, actions).disk;
            && after.Some? && after.value.key == d.key && after.value.plan == d.plan
            && Cached(after.value, d.plan[k])
            && after.value.completed[d.plan[k].index] == d.completed[d.plan[k].index]
  {
    if actions != [] {
      var front, a := actions[..|actions| - 1], actions[|actions| - 1];
      assert forall i | 0 <= i < |front| :: front[i] == actions[i];
      RecordsPermanent(s, front, k);
      RecordStays(RunFrom(s, front), a, k);
      ApplyKeeps(RunFrom(s, front), a);
    }
  }

  // ---- Rows and digests ----

  /** The action at `n` recorded this row in a run launched under `key`. */
  ghost predicate Ran(actions: seq<Action>, n: nat, key: Key, row: Row) {
    && n < |actions| && actions[n].Persist? && actions[n].passed + actions[n].skipped == actions[n].collected
    && var a, run := actions[n], Runs(actions[..n]).run;
       && run.Some? && run.value.key == key && a.task < |run.value.active| && !run.value.active[a.task].persisted
       && row == Row(run.value.active[a.task].shard.index, run.value.active[a.task].shard.files,
                     a.collected, a.passed, a.skipped)
  }

  ghost predicate AllRan(actions: seq<Action>, key: Key, rows: map<nat, Row>) {
    forall i | i in rows :: exists n :: Ran(actions, n, key, rows[i])
  }

  lemma RanStays(actions: seq<Action>, a: Action, n: nat, key: Key, row: Row)
    requires Ran(actions, n, key, row)
    ensures Ran(actions + [a], n, key, row)
  {
    assert (actions + [a])[..n] == actions[..n];
  }

  lemma AllRanStays(actions: seq<Action>, a: Action, key: Key, rows: map<nat, Row>)
    requires AllRan(actions, key, rows)
    ensures AllRan(actions + [a], key, rows)
  {
    forall i | i in rows ensures exists n :: Ran(actions + [a], n, key, rows[i]) {
      var n :| Ran(actions, n, key, rows[i]);
      RanStays(actions, a, n, key, rows[i]);
    }
  }

  lemma PersistRan(actions: seq<Action>, a: Action)
    requires a.Persist? && Inv(Runs(actions)) && Runs(actions).disk.Some?
    requires AllRan(actions, Runs(actions).disk.value.key, Runs(actions).disk.value.completed)
    ensures var d := Apply(Runs(actions), a).disk; d.Some? && AllRan(actions + [a], d.value.key, d.value.completed)
  {
    var s, after := Runs(actions), Apply(Runs(actions), a);
    AllRanStays(actions, a, s.disk.value.key, s.disk.value.completed);
    if after.disk != s.disk {
      var shard := s.run.value.active[a.task].shard;
      assert (actions + [a])[..|actions|] == actions;
      var row := Row(shard.index, shard.files, a.collected, a.passed, a.skipped);
      assert Ran(actions + [a], |actions|, s.run.value.key, row);
    }
  }

  lemma {:induction false} DurableRowsWereRun(actions: seq<Action>)
    ensures var d := Runs(actions).disk; d.Some? ==> AllRan(actions, d.value.key, d.value.completed)
  {
    if actions != [] {
      var front, a := actions[..|actions| - 1], actions[|actions| - 1];
      DurableRowsWereRun(front);
      assert actions == front + [a];
      if Runs(front).disk.Some? {
        if a.Persist? {
          RunsSound(front);
          PersistRan(front, a);
        } else {
          OthersRan(front, a);
        }
      }
    }
  }

  lemma OthersRan(actions: seq<Action>, a: Action)
    requires !a.Persist? && Runs(actions).disk.Some?
    requires AllRan(actions, Runs(actions).disk.value.key, Runs(actions).disk.value.completed)
    ensures var d := Apply(Runs(actions), a).disk; d.Some? && AllRan(actions + [a], d.value.key, d.value.completed)
  {
    AllRanStays(actions, a, Runs(actions).disk.value.key, Runs(actions).disk.value.completed);
    RowsKept(Runs(actions), a);
  }

  /** Only recording adds a row: any other action keeps the rows and their digests, or
      drops all rows. */
  lemma RowsKept(s: System, a: Action)
    requires !a.Persist? && s.disk.Some?
    ensures var d := Apply(s, a).disk;
            d.Some? && (d.value.completed == map[]
                        || (d.value.completed == s.disk.value.completed && d.value.key == s.disk.value.key))
  {
    match a
    case Launch(key, _, built, _, _) =>
      PlannedRows(s.disk, key, built);
      LaunchDisk(s, a);
    case _ =>
  }

  lemma PlannedRows(disk: Option<Durable>, key: Key, built: seq<Shard>)
    ensures Planned(disk, key, built).key == key && Planned(disk, key, built).completed == RowsFor(disk, key)
  {
  }

  lemma LaunchDisk(s: System, a: Action)
    requires a.Launch?
    ensures Apply(s, a).disk == s.disk || Apply(s, a).disk == Some(Planned(s.disk, a.key, a.built))
  {
  }

  /** Every row of a run, and every durable row, was recorded for a shard that a run
      launched under the same digests had started, with the counts reported then. */
  lemma RowsWereRun(actions: seq<Action>)
    ensures var s := Runs(actions);
            && (s.disk.Some? ==> AllRan(actions, s.disk.value.key, s.disk.value.completed))
            && (s.run.Some? ==> AllRan(actions, s.run.value.key, s.run.value.results))
  {
    DurableRowsWereRun(actions);
    RunsSound(actions);
  }

  /** The plan a launch goes by: the frozen one of the same digests, else the one built. */
  function PlanFor(disk: Option<Durable>, key: Key, built: seq<Shard>): seq<Shard> {
    if disk.Some? && disk.value.key == key && disk.value.plan != [] then disk.value.plan
    else if Freezable(built) then built
    else []
  }

  /** The rows a launch may take up: those recorded under the same digests. */
  function RowsFor(disk: Option<Durable>, key: Key): map<nat, Row> {
    if disk.Some? && disk.value.key == key then disk.value.completed else map[]
  }

  ghost predicate MayLaunch(s: System, key: Key, inventory: seq<File>, built: seq<Shard>, limit: nat) {
    && s.run.None? && key.inventory == Names(inventory) && inventory != [] && limit > 0
    && PlanSound(PlanFor(s.disk, key, built)) && Covers(PlanFor(s.disk, key, built), inventory)
  }

  /** Initializing keeps a state of the same digests and starts an empty one otherwise. */
  lemma InitializeExact(s: System, key: Key)
    requires s.run.None?
    ensures var after := Apply(s, Initialize(key));
            && after.run.None? && after.disk.Some? && after.disk.value.key == key
            && after.disk.value.completed == RowsFor(s.disk, key)
            && after.disk.value.plan == if s.disk.Some? && s.disk.value.key == key then s.disk.value.plan else []
  {
  }

  /** A run may stop anywhere; what is durable stays. */
  lemma StopLeavesDisk(s: System)
    ensures Apply(s, Stop) == System(s.disk, None)
  {
  }

  /** The order is one of the shards still to run in parallel. */
  ghost predicate IsPendingOrder(s: System, key: Key, built: seq<Shard>, order: seq<Shard>) {
    multiset(order) == multiset(Uncached(Planned(s.disk, key, built), PlanFor(s.disk, key, built), false))
  }

  /** A launch starts a run exactly when its plan covers the inventory; the run goes under
      the digests of the launch, and takes up as results exactly the planned shards that
      are recorded under the same digests. */
  lemma LaunchExact(s: System, key: Key, inventory: seq<File>, built: seq<Shard>, order: seq<Shard>, limit: nat)
    requires s.run.None? && IsPendingOrder(s, key, built, order)
    ensures var run := Apply(s, Launch(key, inventory, built, order, limit)).run;
            && (run.Some? <==> MayLaunch(s, key, inventory, built, limit))
            && (run.Some? ==>
                  && run.value.key == key && run.value.inventory == inventory && run.value.limit == limit
                  && run.value.plan == PlanFor(s.disk, key, built) && run.value.pending == order
                  && run.value.active == [])
    ensures key.inventory == Names(inventory) && inventory != [] && limit > 0 ==>
              Apply(s, Launch(key, inventory, built, order, limit)).disk ==
              Some(Durable(key, PlanFor(s.disk, key, built), RowsFor(s.disk, key)))
  {
    if inventory != [] { EmptyCoversNothing(inventory); }
  }

  lemma EmptyCoversNothing(inventory: seq<File>)
    requires inventory != []
    ensures !Covers([], inventory)
  {
    assert inventory[|inventory| - 1].name in AsMap(inventory);
  }

  lemma LaunchTakesUp(s: System, key: Key, inventory: seq<File>, built: seq<Shard>, order: seq<Shard>, limit: nat,
                      k: nat)
    requires s.run.None? && Apply(s, Launch(key, inventory, built, order, limit)).run.Some?
    requires k < |Apply(s, Launch(key, inventory, built, order, limit)).run.value.plan|
    ensures var r := Apply(s, Launch(key, inventory, built, order, limit)).run.value;
            var x, rows := r.plan[k], RowsFor(s.disk, key);
            && (x.index in r.results <==> x.index in rows && rows[x.index].files == x.files)
            && (x.index in r.results ==> r.results[x.index] == rows[x.index])
  {
    var d := Planned(s.disk, key, built);
    assert d.completed == RowsFor(s.disk, key);
    var x := d.plan[k];
    if Cached(d, x) { CachedInRows(d, d.plan, k); }
    if x.index in CachedRows(d, d.plan) {
      CachedRowsExact(d, d.plan, x.index);
      var j :| 0 <= j < |d.plan| && d.plan[j].index == x.index && d.plan[j].files == d.completed[x.index].files;
      assert j == k;
    }
  }

  ghost predicate PlanIsSound(disk: Option<Durable>) {
    disk.Some? ==>
      var plan := disk.value.plan;
      && (forall i, j | 0 <= i < j < |plan| :: plan[i].index < plan[j].index)
      && (forall i | 0 <= i < |plan| :: plan[i].files != [])
      && DistinctNames(Assigned(plan))
  }

  /** In every run a durable plan has increasing indexes, no empty shard and no file twice. */
  lemma {:induction false} DurablePlansAreSound(actions: seq<Action>)
    ensures PlanIsSound(Runs(actions).disk)
  {
    if actions != [] {
      var front, a := actions[..|actions| - 1], actions[|actions| - 1];
      DurablePlansAreSound(front);
      if a.Launch? { LaunchDisk(Runs(front), a); }
    }
  }

  // ---- Runs can finish ----

  function Weight(active: seq<Task>): nat {
    if active == [] then 0
    else Weight(active[..|active| - 1]) + if active[|active| - 1].persisted then 1 else 2
  }

  /** What is left to do. */
  function WorkLeft(r: Run): nat {
    3 * |r.pending| + 3 * |r.exclusive| + Weight(r.active)
  }

  lemma {:induction false} WeightMarked(active: seq<Task>, k: nat)
    requires k < |active| && !active[k].persisted
    ensures Weight(active[k := Task(active[k].shard, true)]) + 1 == Weight(active)
  {
    var front, marked := active[..|active| - 1], active[k := Task(active[k].shard, true)];
    if k == |active| - 1 {
      assert marked[..k] == front;
    } else {
      WeightMarked(front, k);
      assert marked[..|active| - 1] == front[k := Task(active[k].shard, true)];
    }
  }

  lemma {:induction false} NoneOpen(active: seq<Task>)
    requires forall k | 0 <= k < |active| :: active[k].persisted
    ensures StillOpen(active) == [] && Weight(active) == |active|
  {
    if active != [] { NoneOpen(active[..|active| - 1]); }
  }

  lemma OneWeight(t: Task)
    ensures Weight([t]) == if t.persisted then 1 else 2
  {
    assert [t][..0] == [];
  }

  ghost predicate RunAction(a: Action) {
    a.Submit? || a.Persist? || a.Retire?
  }

  lemma PersistShortens(s: System, k: nat)
    requires Inv(s) && s.run.Some? && k < |s.run.value.active| && !s.run.value.active[k].persisted
    ensures Shortens(s, Persist(k, 0, 0, 0))
  {
    WeightMarked(s.run.value.active, k);
  }

  lemma RetireShortens(s: System)
    requires s.run.Some? && s.run.value.active != []
    requires forall k | 0 <= k < |s.run.value.active| :: s.run.value.active[k].persisted
    ensures Shortens(s, Retire)
  {
    NoneOpen(s.run.value.active);
  }

  lemma SubmitShortens(s: System)
    requires Inv(s) && s.run.Some? && !Finished(s.run.value) && s.run.value.active == []
    ensures Shortens(s, Submit)
  {
    var r := s.run.value;
    var started := Task(if r.pending != [] then r.pending[0] else r.exclusive[0], false);
    OneWeight(started);
    assert [] + [started] == [started];
  }

  lemma WorkDrops(s: System)
    requires Inv(s) && s.run.Some? && !Finished(s.run.value)
    ensures exists a :: RunAction(a) && Shortens(s, a)
  {
    var r := s.run.value;
    if k :| 0 <= k < |r.active| && !r.active[k].persisted {
      PersistShortens(s, k);
    } else if r.active != [] {
      RetireShortens(s);
    } else {
      SubmitShortens(s);
    }
  }

  ghost predicate Shortens(s: System, a: Action)
    requires s.run.Some?
  {
    var run := Apply(s, a).run;
    run.Some? && run.value.plan == s.run.value.plan && WorkLeft(run.value) < WorkLeft(s.run.value)
  }

  lemma {:induction false} RunFromCons(s: System, a: Action, more: seq<Action>)
    ensures RunFrom(s, [a] + more) == RunFrom(Apply(s, a), more)
  {
    if more == [] {
      assert [a] + more == [a] && [a][..0] == [];
    } else {
      RunFromCons(s, a, more[..|more| - 1]);
      assert ([a] + more)[..|more|] == [a] + more[..|more| - 1];
    }
  }

  ghost predicate Finishes(s: System, more: seq<Action>) {
    && (forall i | 0 <= i < |more| :: RunAction(more[i]))
    && RunFrom(s, more).run.Some? && Finished(RunFrom(s, more).run.value)
  }

  /** From every state of a run it can finish: no shard waits for ever. */
  lemma {:induction false} RunCanFinish(s: System) returns (more: seq<Action>)
    requires Inv(s) && s.run.Some?
    ensures Finishes(s, more)
    decreases WorkLeft(s.run.value)
  {
    more := [];
    if !Finished(s.run.value) {
      WorkDrops(s);
      var a :| RunAction(a) && Shortens(s, a);
      ApplyKeeps(s, a);
      var rest := RunCanFinish(Apply(s, a));
      RunFromCons(s, a, rest);
      more := [a] + rest;
    }
  }

  /** A submit starts a shard whenever the window has room for one. */
  lemma StartsExactly(s: System)
    requires Reachable(s) && s.run.Some? && AllOpen(s.run.value.active)
    ensures var r := s.run.value;
            && (NextStart(s).Some? <==>
                  (r.pending != [] && |r.active| < r.limit)
                  || (r.pending == [] && r.active == [] && r.exclusive != []))
            && (NextStart(s).Some? ==>
                  Apply(s, Submit).run.value.active == r.active + [Task(NextStart(s).value, false)])
  {
  }

  datatype Totals = Totals(collected: nat, passed: nat, skipped: nat, shards: nat)

  ghost predicate HasRows(plan: seq<Shard>, results: map<nat, Row>) {
    forall k | 0 <= k < |plan| :: plan[k].index in results
  }

  /** The sums over the plan of each shard's row. */
  ghost function PlanTotals(plan: seq<Shard>, results: map<nat, Row>): Totals
    requires HasRows(plan, results)
  {
    if plan == [] then Totals(0, 0, 0, 0)
    else
      WithRow(PlanTotals(plan[..|plan| - 1], results), results[plan[|plan| - 1].index])
  }

  function WithRow(t: Totals, row: Row): Totals {
    Totals(t.collected + row.collected, t.passed + row.passed, t.skipped + row.skipped, t.shards + 1)
  }

  ghost predicate Finished(r: Run) {
    r.pending == [] && r.exclusive == [] && r.active == []
  }

  /** A run with nothing left has one row for every planned shard and no others, each
      the durable one of that shard's files. */
  lemma FinishedHasEveryRow(s: System)
    requires Reachable(s) && s.run.Some? && Finished(s.run.value)
    ensures var r := s.run.value;
            && s.disk.Some? && PlanSound(r.plan) && HasRows(r.plan, r.results)
            && (forall i | i in r.results :: exists k :: 0 <= k < |r.plan| && r.plan[k].index == i)
            && (forall k | 0 <= k < |r.plan| :: Cached(s.disk.value, r.plan[k])
                  && s.disk.value.completed[r.plan[k].index] == r.results[r.plan[k].index])
  {
    ReachableSound(s);
    var r, d := s.run.value, s.disk.value;
    forall k | 0 <= k < |r.plan|
      ensures r.plan[k].index in r.results && Cached(d, r.plan[k])
      ensures d.completed[r.plan[k].index] == r.results[r.plan[k].index]
    {
      ExactlyOnePlace(s, k);
      var i := r.plan[k].index;
      assert RowFor(r.plan, i, r.results[i]);
      var j :| 0 <= j < |r.plan| && r.plan[j].index == i && r.plan[j].files == r.results[i].files;
      assert j == k;
    }
    forall i | i in r.results ensures exists k :: 0 <= k < |r.plan| && r.plan[k].index == i {
      assert RowFor(r.plan, i, r.results[i]);
    }
  }

  /** The indexes of the shards from position `k` on. */
  ghost function IndexSet(plan: seq<Shard>, k: nat): set<nat> {
    set j | k <= j < |plan| :: plan[j].index
  }

  lemma LeastIndex(plan: seq<Shard>, k: nat)
    requires PlanSound(plan) && k < |plan|
    ensures plan[k].index in IndexSet(plan, k) && forall i | i in IndexSet(plan, k) :: plan[k].index <= i
    ensures IndexSet(plan, k) - {plan[k].index} == IndexSet(plan, k + 1)
  {
  }

  lemma NothingLeft(plan: seq<Shard>, k: nat)
    requires k <= |plan|
    ensures IndexSet(plan, k) == {} <==> k == |plan|
  {
    assert k == |plan| || plan[k].index in IndexSet(plan, k);
  }

  /** One count of every planned row, added up. */
  ghost function SumOver(plan: seq<Shard>, results: map<nat, Row>, count: Row -> nat): nat
    requires HasRows(plan, results)
  {
    if plan == [] then 0
    else SumOver(plan[..|plan| - 1], results, count) + count(results[plan[|plan| - 1].index])
  }

  /** Each total is the sum of its own count. */
  lemma {:induction false} TotalsAreSums(plan: seq<Shard>, results: map<nat, Row>)
    requires HasRows(plan, results)
    ensures PlanTotals(plan, results) ==
            Totals(SumOver(plan, results, (row: Row) => row.collected),
                   SumOver(plan, results, (row: Row) => row.passed),
                   SumOver(plan, results, (row: Row) => row.skipped), |plan|)
  {
    if plan != [] { TotalsAreSums(plan[..|plan| - 1], results); }
  }

  /** The first `k` planned rows are added up, the others are left. */
  ghost predicate Summed(plan: seq<Shard>, results: map<nat, Row>, k: nat, left: set<nat>, t: Totals) {
    && k <= |plan| && left == IndexSet(plan, k)
    && HasRows(plan[..k], results) && t == PlanTotals(plan[..k], results)
    && t.passed + t.skipped == t.collected
  }

  predicate RowsAddUp(results: map<nat, Row>) {
    forall i | i in results :: results[i].passed + results[i].skipped == results[i].collected
  }

  lemma TotalsSnoc(front: seq<Shard>, x: Shard, results: map<nat, Row>)
    requires HasRows(front, results) && x.index in results
    ensures HasRows(front + [x], results)
    ensures PlanTotals(front + [x], results) == WithRow(PlanTotals(front, results), results[x.index])
  {
    assert (front + [x])[..|front|] == front;
  }

  /** One iteration takes up the next row of the plan. */
  lemma SummarizeStep(plan: seq<Shard>, results: map<nat, Row>, k: nat, left: set<nat>, t: Totals)
    requires PlanSound(plan) && HasRows(plan, results) && RowsAddUp(results)
    requires Summed(plan, results, k, left, t) && left != {}
    ensures k < |plan| && plan[k].index in left && plan[k].index in results
    ensures forall i | i in left :: plan[k].index <= i
    ensures Summed(plan, results, k + 1, left - {plan[k].index}, WithRow(t, results[plan[k].index]))
  {
    NothingLeft(plan, k);
    LeastIndex(plan, k);
    TotalsSnoc(plan[..k], plan[k], results);
    assert plan[..k + 1] == plan[..k] + [plan[k]];
  }

  lemma SummarizeEnd(plan: seq<Shard>, results: map<nat, Row>, k: nat, t: Totals)
    requires HasRows(plan, results) && Summed(plan, results, k, {}, t)
    ensures t == PlanTotals(plan, results) && t.passed + t.skipped == t.collected
  {
    NothingLeft(plan, k);
    assert plan[..|plan|] == plan;
  }

  /** The summary loop visits the results in index order, which is plan order. */
  method Summarize(ghost plan: seq<Shard>, results: map<nat, Row>) returns (t: Totals, ok: bool)
    requires PlanSound(plan) && HasRows(plan, results) && results.Keys == IndexSet(plan, 0)
    requires RowsAddUp(results)
    ensures t == PlanTotals(plan, results)
    ensures ok <==> t.collected > 0
  {
    t := Totals(0, 0, 0, 0);
    var left := results.Keys;
    ghost var k: nat := 0;
    while left != {}
      invariant Summed(plan, results, k, left, t)
      decreases left
    {
      SummarizeStep(plan, results, k, left, t);
      var index :| index in left && forall i | i in left :: index <= i;
      t := WithRow(t, results[index]);
      left := left - {index};
      k := k + 1;
    }
    SummarizeEnd(plan, results, k, t);
    ok := t.collected > 0 && t.passed + t.skipped == t.collected;
  }

  /** A finished run may be summarized; its totals are the sums over the plan. */
  lemma FinishedMaySummarize(s: System)
    requires Reachable(s) && s.run.Some? && Finished(s.run.value)
    ensures var r := s.run.value;
            && PlanSound(r.plan) && HasRows(r.plan, r.results) && r.results.Keys == IndexSet(r.plan, 0)
            && RowsAddUp(r.results)
  {
    FinishedHasEveryRow(s);
    ReachableSound(s);
    var r := s.run.value;
    forall i | i in r.results
      ensures i in IndexSet(r.plan, 0) && r.results[i].passed + r.results[i].skipped == r.results[i].collected
    {
      assert RowFor(r.plan, i, r.results[i]);
    }
  }
}
