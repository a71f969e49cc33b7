/** The shards of a release regression and what a plan of them assigns. */
module PlannedShards {
  datatype Isolation = ParallelSafe | ProcessIsolated | Exclusive

  datatype Shard = Shard(index: nat, files: seq<string>, isolation: Isolation)

  /** Increasing indexes, no empty shard. */
  predicate PlanSound(plan: seq<Shard>) {
    && (forall i, j | 0 <= i < j < |plan| :: plan[i].index < plan[j].index)
    && (forall i | 0 <= i < |plan| :: plan[i].files != [])
  }

  /** An inventory row, and a row of a plan: a file with its isolation class. */
  datatype File = File(name: string, isolation: Isolation)

  function Label(names: seq<string>, isolation: Isolation): (rows: seq<File>)
    ensures |rows| == |names| && forall i | 0 <= i < |names| :: rows[i] == File(names[i], isolation)
  {
    if names == [] then []
    else Label(names[..|names| - 1], isolation) + [File(names[|names| - 1], isolation)]
  }

  /** All assignments of a plan, in order. */
  function Assigned(plan: seq<Shard>): seq<File> {
    if plan == [] then []
    else
      var last := plan[|plan| - 1];
      Assigned(plan[..|plan| - 1]) + Label(last.files, last.isolation)
  }

  /** Later rows win. */
  function AsMap(rows: seq<File>): map<string, Isolation> {
    if rows == [] then map[]
    else AsMap(rows[..|rows| - 1])[rows[|rows| - 1].name := rows[|rows| - 1].isolation]
  }

  predicate DistinctNames(rows: seq<File>) {
    forall i, j | 0 <= i < j < |rows| :: rows[i].name != rows[j].name
  }

  predicate DistinctIndexes(plan: seq<Shard>) {
    forall i, j | 0 <= i < j < |plan| :: plan[i].index != plan[j].index
  }

  /** The plan gives every file of the inventory exactly once, with its class. */
  predicate Covers(plan: seq<Shard>, inventory: seq<File>) {
    DistinctIndexes(plan) && DistinctNames(Assigned(plan)) && AsMap(Assigned(plan)) == AsMap(inventory)
  }

  /** The plans that a durable state takes up: no file twice either. */
  predicate Freezable(plan: seq<Shard>) {
    PlanSound(plan) && DistinctNames(Assigned(plan))
  }

  function Names(inventory: seq<File>): (names: seq<string>)
    ensures |names| == |inventory| && forall i | 0 <= i < |names| :: names[i] == inventory[i].name
  {
    seq(|inventory|, i requires 0 <= i < |inventory| => inventory[i].name)
  }
}
