/** The longest-processing-time scheduler with a cap on files per shard. */
module ParallelGroups {
  import opened Multiples
  import opened Ranking

  // Files are named by their position in the path-sorted inventory of their class.

  const PARALLEL_SHARD_SIZE: nat := 8

  function CeilDiv(a: nat, b: nat): nat
    requires b > 0
  {
    (a + b - 1) / b
  }

  function ShardCount(n: nat): nat {
    var shards := CeilDiv(n, PARALLEL_SHARD_SIZE);
    if shards > 1 then shards else 1
  }

  function MaxFiles(n: nat): nat {
    CeilDiv(n, ShardCount(n))
  }

  lemma CeilDivBounds(a: nat, b: nat)
    requires b > 0
    ensures CeilDiv(a, b) * b >= a && (a > 0 ==> (CeilDiv(a, b) - 1) * b < a)
  {
    var q := CeilDiv(a, b);
    assert (a + b - 1) == q * b + (a + b - 1) % b;
    assert (q - 1) * b == q * b - b;
  }

  /** The cap never exceeds the shard size, room suffices for every file, no shard could
      be spared, and no lower cap would do. */
  lemma Capacity(n: nat)
    requires n > 0
    ensures 0 < MaxFiles(n) <= PARALLEL_SHARD_SIZE == 8
    ensures ShardCount(n) * MaxFiles(n) >= n
    ensures (ShardCount(n) - 1) * PARALLEL_SHARD_SIZE < n
    ensures (MaxFiles(n) - 1) * ShardCount(n) < n
  {
    CeilDivBounds(n, PARALLEL_SHARD_SIZE);
    var shards := ShardCount(n);
    CeilDivBounds(n, shards);
    var most := MaxFiles(n);
    if most > PARALLEL_SHARD_SIZE {
      MulMonotone(PARALLEL_SHARD_SIZE, most - 1, shards);
    }
  }

  lemma MulMonotone(a: nat, b: nat, c: nat)
    requires a <= b
    ensures a * c <= b * c
  {
  }

  function Flatten(buckets: seq<seq<nat>>): seq<nat> {
    if buckets == [] then [] else buckets[0] + Flatten(buckets[1..])
  }

  lemma {:induction false} FlattenAppend(buckets: seq<seq<nat>>, b: nat, x: nat)
    requires b < |buckets|
    ensures multiset(Flatten(buckets[b := buckets[b] + [x]])) == multiset(Flatten(buckets)) + multiset{x}
  {
    var after := buckets[b := buckets[b] + [x]];
    if b == 0 {
      assert after[1..] == buckets[1..];
      assert Flatten(after) == buckets[0] + [x] + Flatten(buckets[1..]);
    } else {
      FlattenAppend(buckets[1..], b - 1, x);
      assert after[1..] == buckets[1..][b - 1 := buckets[1..][b - 1] + [x]];
      assert Flatten(after) == buckets[0] + Flatten(after[1..]);
    }
  }

  lemma {:induction false} FlattenSizeAtLeast(buckets: seq<seq<nat>>, size: nat)
    requires forall b | 0 <= b < |buckets| :: |buckets[b]| >= size
    ensures |Flatten(buckets)| >= |buckets| * size
  {
    if buckets != [] { FlattenSizeAtLeast(buckets[1..], size); }
  }

  lemma {:induction false} FlattenSizeAtMost(buckets: seq<seq<nat>>)
    requires forall b | 0 <= b < |buckets| :: |buckets[b]| <= PARALLEL_SHARD_SIZE
    ensures |Flatten(buckets)| <= |buckets| * PARALLEL_SHARD_SIZE
    ensures (exists b :: 0 <= b < |buckets| && buckets[b] == []) ==>
              |Flatten(buckets)| <= (|buckets| - 1) * PARALLEL_SHARD_SIZE
  {
    if buckets != [] {
      FlattenSizeAtMost(buckets[1..]);
      if b :| 0 <= b < |buckets| && buckets[b] == [] {
        assert b > 0 ==> buckets[1..][b - 1] == [];
      }
    }
  }

  /** Total estimated seconds of a bucket. */
  function Load(est: seq<real>, bucket: seq<nat>): real
    requires forall k | 0 <= k < |bucket| :: bucket[k] < |est|
  {
    if bucket == [] then 0.0 else Load(est, bucket[..|bucket| - 1]) + est[bucket[|bucket| - 1]]
  }

  ghost predicate Files(est: seq<real>, bucket: seq<nat>) {
    forall k | 0 <= k < |bucket| :: bucket[k] < |est|
  }

  ghost predicate Estimates(est: seq<real>) {
    forall i | 0 <= i < |est| :: est[i] >= 0.0
  }

  /** `x` is a cheapest file of the bucket. */
  ghost predicate Cheapest(est: seq<real>, bucket: seq<nat>, x: nat)
    requires Files(est, bucket)
  {
    x in bucket && x < |est| && forall k | 0 <= k < |bucket| :: est[x] <= est[bucket[k]]
  }

  /** The initial heap: every bucket at load zero. */
  function EmptyBuckets(n: nat): (queue: map<nat, real>)
    ensures forall b | 0 <= b < n :: b in queue
    ensures forall b | b in queue :: b < n && queue[b] == 0.0
  {
    if n == 0 then map[] else EmptyBuckets(n - 1)[n - 1 := 0.0]
  }

  /** What a heap entry (load, index) sorts before. */
  predicate Lighter(queue: map<nat, real>, a: nat, b: nat)
    requires a in queue && b in queue
  {
    queue[a] < queue[b] || (queue[a] == queue[b] && a <= b)
  }

  lemma {:induction false} LightestExists(queue: map<nat, real>, keys: set<nat>) returns (a: nat)
    requires keys != {} && keys <= queue.Keys
    ensures a in keys && forall b | b in keys :: Lighter(queue, a, b)
  {
    a :| a in keys;
    if keys != {a} {
      var c := LightestExists(queue, keys - {a});
      if Lighter(queue, c, a) {
        assert forall b | b in keys :: b == a || b in keys - {a};
        a := c;
      } else {
        assert forall b | b in keys :: b == a || Lighter(queue, c, b);
      }
    }
  }

  /** The entry that heapq.heappop returns from the open buckets. */
  method Lightest(queue: map<nat, real>) returns (index: nat)
    requires queue != map[]
    ensures index in queue && forall b | b in queue :: Lighter(queue, index, b)
    ensures forall b | b in queue :: queue[index] <= queue[b] && (queue[b] == queue[index] ==> index <= b)
  {
    ghost var a := LightestExists(queue, queue.Keys);
    index :| index in queue && forall b | b in queue.Keys :: Lighter(queue, index, b);
  }

  /** The heap after some placements: one entry per bucket with room, at its load. */
  ghost predicate HeapMatches(est: seq<real>, buckets: seq<seq<nat>>, queue: map<nat, real>, most: nat) {
    && (forall b | 0 <= b < |buckets| :: Files(est, buckets[b]) && |buckets[b]| <= most)
    && (forall b | 0 <= b < |buckets| && |buckets[b]| < most :: b in queue)
    && (forall b | b in queue :: b < |buckets| && |buckets[b]| < most && queue[b] == Load(est, buckets[b]))
  }

  /** Without its cheapest file, a bucket is no heavier than any bucket with room. */
  ghost predicate Balanced(est: seq<real>, buckets: seq<seq<nat>>, most: nat)
    requires forall b | 0 <= b < |buckets| :: Files(est, buckets[b])
  {
    forall b, c {:trigger GapAtMostCheapest(est, buckets[b], buckets[c])} |
      0 <= b < |buckets| && 0 <= c < |buckets| && buckets[b] != [] && |buckets[c]| < most ::
      GapAtMostCheapest(est, buckets[b], buckets[c])
  }

  ghost predicate GapAtMostCheapest(est: seq<real>, b: seq<nat>, c: seq<nat>)
    requires Files(est, b) && Files(est, c)
  {
    exists x: nat :: x < |est| && Cheapest(est, b, x) && Load(est, b) - est[x] <= Load(est, c)
  }

  /** Every file placed so far costs at least `floor`. */
  ghost predicate CostsAtLeast(est: seq<real>, buckets: seq<seq<nat>>, floor: real) {
    forall b, k | 0 <= b < |buckets| && Files(est, buckets[b]) && 0 <= k < |buckets[b]| :: floor <= est[buckets[b][k]]
  }

  lemma PlaceKeepsBalance(est: seq<real>, buckets: seq<seq<nat>>, queue: map<nat, real>, most: nat, b: nat, x: nat)
    requires Estimates(est) && x < |est|
    requires HeapMatches(est, buckets, queue, most) && Balanced(est, buckets, most)
    requires b in queue && forall c | c in queue :: Lighter(queue, b, c)
    requires CostsAtLeast(est, buckets, est[x])
    ensures var after := buckets[b := buckets[b] + [x]];
            && (forall c | 0 <= c < |after| :: Files(est, after[c]))
            && Balanced(est, after, most)
            && CostsAtLeast(est, after, est[x])
  {
    var grown := buckets[b] + [x];
    var after := buckets[b := grown];
    assert grown[..|buckets[b]|] == buckets[b];
    assert Load(est, grown) == Load(est, buckets[b]) + est[x];
    assert Cheapest(est, grown, x);
    forall a, c | 0 <= a < |after| && 0 <= c < |after| && after[a] != [] && |after[c]| < most
      ensures GapAtMostCheapest(est, after[a], after[c])
    {
      if a == b {
        assert |buckets[c]| < most && Lighter(queue, b, c);
      } else {
        assert |buckets[c]| < most;
        assert GapAtMostCheapest(est, buckets[a], buckets[c]);
      }
    }
  }

  lemma {:induction false} NothingPlaced(buckets: seq<seq<nat>>)
    requires forall b | 0 <= b < |buckets| :: buckets[b] == []
    ensures Flatten(buckets) == []
  {
    if buckets != [] { NothingPlaced(buckets[1..]); }
  }

  lemma FlattenCount(buckets: seq<seq<nat>>, s: seq<nat>)
    requires multiset(Flatten(buckets)) == multiset(s)
    ensures |Flatten(buckets)| == |s|
  {
    assert |multiset(Flatten(buckets))| == |multiset(s)|;
  }

  /** No bucket stays empty: one fewer could not hold all the files. */
  lemma EveryBucketUsed(buckets: seq<seq<nat>>)
    requires (|buckets| - 1) * PARALLEL_SHARD_SIZE < |Flatten(buckets)|
    requires forall b | 0 <= b < |buckets| :: |buckets[b]| <= PARALLEL_SHARD_SIZE
    ensures forall b | 0 <= b < |buckets| :: buckets[b] != []
  {
    FlattenSizeAtMost(buckets);
  }

  /** The processing order: longest estimate first. */
  ghost predicate LongestFirst(est: seq<real>, ranked: seq<nat>) {
    && |ranked| == |est|
    && Files(est, ranked)
    && forall k | 0 < k < |ranked| :: est[ranked[k]] <= est[ranked[k - 1]]
  }

  lemma RankedNext(est: seq<real>, key: seq<real>, k: nat)
    requires |key| == |est| && forall i | 0 <= i < |est| :: key[i] == -est[i]
    requires 0 < k < |est|
    ensures est[Rank(key)[k]] <= est[Rank(key)[k - 1]]
  {
    RankIncreases(key, k - 1, k);
  }

  lemma RankedLongestFirst(est: seq<real>, key: seq<real>)
    requires |key| == |est| && forall i | 0 <= i < |est| :: key[i] == -est[i]
    ensures LongestFirst(est, Rank(key))
    ensures multiset(Rank(key)) == multiset(Below(|est|))
  {
    RankIsPermutation(key, |key|);
    forall k | 0 < k < |est| ensures est[Rank(key)[k]] <= est[Rank(key)[k - 1]] { RankedNext(est, key, k); }
  }

  /** The loop invariant: the first `k` files of the processing order are placed. */
  ghost predicate Placed(est: seq<real>, ranked: seq<nat>, k: nat,
                         buckets: seq<seq<nat>>, queue: map<nat, real>, most: nat)
  {
    && k <= |ranked|
    && HeapMatches(est, buckets, queue, most)
    && Balanced(est, buckets, most)
    && multiset(Flatten(buckets)) == multiset(ranked[..k])
    && (forall next | k <= next < |ranked| && ranked[next] < |est| :: CostsAtLeast(est, buckets, est[ranked[next]]))
  }

  lemma NothingPlacedYet(est: seq<real>, ranked: seq<nat>, buckets: seq<seq<nat>>, queue: map<nat, real>, most: nat)
    requires forall b | 0 <= b < |buckets| :: buckets[b] == [] && b in queue
    requires forall b | b in queue :: b < |buckets| && queue[b] == 0.0
    requires most > 0
    ensures Placed(est, ranked, 0, buckets, queue, most)
  {
    NothingPlaced(buckets);
  }

  /** The heap once bucket `b` is popped and, unless it is now full, pushed back
      with the cost of its new file added. */
  function HeapAfter(queue: map<nat, real>, b: nat, size: nat, cost: real, most: nat): map<nat, real>
    requires b in queue
  {
    if size < most then (queue - {b})[b := queue[b] + cost] else queue - {b}
  }

  lemma HeapStaysMatched(est: seq<real>, buckets: seq<seq<nat>>, queue: map<nat, real>, most: nat, b: nat, x: nat)
    requires HeapMatches(est, buckets, queue, most) && b in queue && x < |est|
    ensures var bucket := buckets[b] + [x];
            HeapMatches(est, buckets[b := bucket], HeapAfter(queue, b, |bucket|, est[x], most), most)
  {
    var bucket := buckets[b] + [x];
    assert bucket[..|buckets[b]|] == buckets[b];
  }

  lemma FlattenNext(buckets: seq<seq<nat>>, b: nat, ranked: seq<nat>, k: nat)
    requires b < |buckets| && k < |ranked| && multiset(Flatten(buckets)) == multiset(ranked[..k])
    ensures multiset(Flatten(buckets[b := buckets[b] + [ranked[k]]])) == multiset(ranked[..k + 1])
  {
    FlattenAppend(buckets, b, ranked[k]);
    assert ranked[..k + 1] == ranked[..k] + [ranked[k]];
  }

  lemma LaterFilesCostLess(est: seq<real>, ranked: seq<nat>, k: nat, buckets: seq<seq<nat>>)
    requires LongestFirst(est, ranked) && k < |ranked| && CostsAtLeast(est, buckets, est[ranked[k]])
    ensures forall next | k <= next < |ranked| && ranked[next] < |est| :: CostsAtLeast(est, buckets, est[ranked[next]])
  {
    forall next | k <= next < |ranked| ensures CostsAtLeast(est, buckets, est[ranked[next]]) {
      LongestFirstTransitive(est, ranked, k, next);
      LowerFloor(est, buckets, est[ranked[k]], est[ranked[next]]);
    }
  }

  lemma PlaceNext(est: seq<real>, ranked: seq<nat>, k: nat, buckets: seq<seq<nat>>, queue: map<nat, real>,
                  most: nat, b: nat)
    requires Estimates(est) && LongestFirst(est, ranked) && k < |ranked|
    requires Placed(est, ranked, k, buckets, queue, most)
    requires b in queue && forall c | c in queue :: Lighter(queue, b, c)
    ensures var bucket := buckets[b] + [ranked[k]];
            Placed(est, ranked, k + 1, buckets[b := bucket],
                   HeapAfter(queue, b, |bucket|, est[ranked[k]], most), most)
  {
    var x := ranked[k];
    var bucket := buckets[b] + [x];
    var after := buckets[b := bucket];
    HeapStaysMatched(est, buckets, queue, most, b, x);
    PlaceKeepsBalance(est, buckets, queue, most, b, x);
    FlattenNext(buckets, b, ranked, k);
    LaterFilesCostLess(est, ranked, k, after);
  }

  lemma LowerFloor(est: seq<real>, buckets: seq<seq<nat>>, high: real, low: real)
    requires low <= high && CostsAtLeast(est, buckets, high)
    ensures CostsAtLeast(est, buckets, low)
  {
  }

  lemma {:induction false} LongestFirstTransitive(est: seq<real>, ranked: seq<nat>, j: nat, k: nat)
    requires LongestFirst(est, ranked) && j <= k < |ranked|
    ensures est[ranked[k]] <= est[ranked[j]]
    decreases k - j
  {
    if j < k { LongestFirstTransitive(est, ranked, j, k - 1); }
  }

  /** Buckets and capacity the loop starts from. */
  ghost predicate RoomForAll(files: nat, shards: nat, most: nat) {
    most > 0 && files <= shards * most
  }

  /** The heap is never popped empty: while a file waits, some bucket has room. */
  lemma RoomLeft(est: seq<real>, ranked: seq<nat>, k: nat, buckets: seq<seq<nat>>, queue: map<nat, real>, most: nat)
    requires k < |ranked| && Placed(est, ranked, k, buckets, queue, most)
    requires RoomForAll(|ranked|, |buckets|, most)
    ensures queue != map[]
  {
    FlattenCount(buckets, ranked[..k]);
    if queue == map[] {
      forall b | 0 <= b < |buckets| ensures |buckets[b]| >= most {
        assert b !in queue;
      }
      FlattenSizeAtLeast(buckets, most);
    }
  }

  /** The scheduling loop: hand the files out, longest first, to the lightest
      bucket that still has room. */
  method FillBuckets(est: seq<real>, ranked: seq<nat>, shards: nat, most: nat) returns (buckets: seq<seq<nat>>)
    requires Estimates(est) && LongestFirst(est, ranked)
    requires RoomForAll(|ranked|, shards, most)
    ensures |buckets| == shards
    ensures exists queue :: Placed(est, ranked, |ranked|, buckets, queue, most)
  {
    buckets := seq(shards, _ => []);
    var queue := EmptyBuckets(shards);
    NothingPlacedYet(est, ranked, buckets, queue, most);
    for k := 0 to |ranked|
      invariant |buckets| == shards
      invariant Placed(est, ranked, k, buckets, queue, most)
    {
      RoomLeft(est, ranked, k, buckets, queue, most);
      var index := Lightest(queue);
      PlaceNext(est, ranked, k, buckets, queue, most, index);
      var bucket := buckets[index] + [ranked[k]];
      buckets := buckets[index := bucket];
      queue := HeapAfter(queue, index, |bucket|, est[ranked[k]], most);
    }
  }

  /** The shards of a placement that used every bucket. */
  ghost predicate Scheduled(est: seq<real>, buckets: seq<seq<nat>>, shards: nat, most: nat) {
    && |buckets| == shards
    && (forall b | 0 <= b < shards :: Files(est, buckets[b]) && 0 < |buckets[b]| <= most)
    && multiset(Flatten(buckets)) == multiset(Below(|est|))
    && Balanced(est, buckets, most)
  }

  lemma AllPlaced(est: seq<real>, ranked: seq<nat>, buckets: seq<seq<nat>>, queue: map<nat, real>, most: nat)
    requires |ranked| == |est| && multiset(ranked) == multiset(Below(|est|))
    requires Placed(est, ranked, |ranked|, buckets, queue, most)
    requires most <= PARALLEL_SHARD_SIZE && (|buckets| - 1) * PARALLEL_SHARD_SIZE < |est|
    ensures Scheduled(est, buckets, |buckets|, most)
  {
    assert ranked[..|ranked|] == ranked;
    FlattenCount(buckets, ranked);
    EveryBucketUsed(buckets);
  }

  method PlaceAll(est: seq<real>) returns (buckets: seq<seq<nat>>)
    requires est != [] && Estimates(est)
    ensures Scheduled(est, buckets, ShardCount(|est|), MaxFiles(|est|))
  {
    var key := seq(|est|, i requires 0 <= i < |est| => -est[i]);
    var ranked := Rank(key);
    RankedLongestFirst(est, key);
    Capacity(|est|);
    buckets := FillBuckets(est, ranked, ShardCount(|est|), MaxFiles(|est|));
    ghost var queue :| Placed(est, ranked, |ranked|, buckets, queue, MaxFiles(|est|));
    AllPlaced(est, ranked, buckets, queue, MaxFiles(|est|));
  }

  function InsertAscending(s: seq<nat>, x: nat): (t: seq<nat>)
    ensures multiset(t) == multiset(s) + multiset{x}
    ensures |t| == |s| + 1
  {
    if s == [] || s[|s| - 1] <= x then s + [x]
    else
      assert s == s[..|s| - 1] + [s[|s| - 1]];
      InsertAscending(s[..|s| - 1], x) + [s[|s| - 1]]
  }

  /** A bucket in path order. */
  function Ascending(bucket: seq<nat>): (t: seq<nat>)
    ensures multiset(t) == multiset(bucket)
    ensures |t| == |bucket|
  {
    if bucket == [] then []
    else
      assert bucket == bucket[..|bucket| - 1] + [bucket[|bucket| - 1]];
      InsertAscending(Ascending(bucket[..|bucket| - 1]), bucket[|bucket| - 1])
  }

  ghost predicate Sorted(s: seq<nat>) {
    forall j, k | 0 <= j < k < |s| :: s[j] <= s[k]
  }

  ghost predicate UpTo(s: seq<nat>, top: nat) {
    forall k | 0 <= k < |s| :: s[k] <= top
  }

  lemma {:induction false} InsertUpTo(s: seq<nat>, x: nat, top: nat)
    requires UpTo(s, top) && x <= top
    ensures UpTo(InsertAscending(s, x), top)
  {
    if s != [] && s[|s| - 1] > x { InsertUpTo(s[..|s| - 1], x, top); }
  }

  lemma SortedSnoc(s: seq<nat>, last: nat)
    requires Sorted(s) && UpTo(s, last)
    ensures Sorted(s + [last])
  {
  }

  lemma {:induction false} InsertSorted(s: seq<nat>, x: nat)
    requires Sorted(s)
    ensures Sorted(InsertAscending(s, x))
  {
    if s != [] && s[|s| - 1] > x {
      var front, last := s[..|s| - 1], s[|s| - 1];
      InsertSorted(front, x);
      InsertUpTo(front, x, last);
      SortedSnoc(InsertAscending(front, x), last);
    } else {
      assert UpTo(s, x);
      SortedSnoc(s, x);
    }
  }

  lemma {:induction false} AscendingSorted(bucket: seq<nat>)
    ensures Sorted(Ascending(bucket))
  {
    if bucket != [] {
      AscendingSorted(bucket[..|bucket| - 1]);
      InsertSorted(Ascending(bucket[..|bucket| - 1]), bucket[|bucket| - 1]);
    }
  }

  lemma {:induction false} InsertLoad(est: seq<real>, s: seq<nat>, x: nat)
    requires Files(est, s) && x < |est|
    ensures Files(est, InsertAscending(s, x))
    ensures Load(est, InsertAscending(s, x)) == Load(est, s) + est[x]
  {
    if s != [] && s[|s| - 1] > x {
      InsertLoad(est, s[..|s| - 1], x);
      var t := InsertAscending(s[..|s| - 1], x);
      assert (t + [s[|s| - 1]])[..|t|] == t;
    } else {
      assert (s + [x])[..|s|] == s;
    }
  }

  /** Sorting a bucket by path keeps its files and its load. */
  lemma {:induction false} AscendingLoad(est: seq<real>, bucket: seq<nat>)
    requires Files(est, bucket)
    ensures Files(est, Ascending(bucket)) && Load(est, Ascending(bucket)) == Load(est, bucket)
  {
    if bucket != [] {
      AscendingLoad(est, bucket[..|bucket| - 1]);
      InsertLoad(est, Ascending(bucket[..|bucket| - 1]), bucket[|bucket| - 1]);
    }
  }

  lemma AscendingGap(est: seq<real>, b: seq<nat>, c: seq<nat>)
    requires Files(est, b) && Files(est, c) && GapAtMostCheapest(est, b, c)
    ensures Files(est, Ascending(b)) && Files(est, Ascending(c))
    ensures GapAtMostCheapest(est, Ascending(b), Ascending(c))
  {
    AscendingLoad(est, b);
    AscendingLoad(est, c);
    var x: nat :| x < |est| && Cheapest(est, b, x) && Load(est, b) - est[x] <= Load(est, c);
    assert x in multiset(b);
    forall k | 0 <= k < |b| ensures est[x] <= est[Ascending(b)[k]] {
      assert Ascending(b)[k] in multiset(b);
    }
    assert Cheapest(est, Ascending(b), x);
  }

  lemma {:induction false} AscendingFlatten(buckets: seq<seq<nat>>, groups: seq<seq<nat>>)
    requires |groups| == |buckets| && forall b | 0 <= b < |buckets| :: groups[b] == Ascending(buckets[b])
    ensures multiset(Flatten(groups)) == multiset(Flatten(buckets))
  {
    if buckets != [] { AscendingFlatten(buckets[1..], groups[1..]); }
  }

  lemma SortGroups(est: seq<real>, buckets: seq<seq<nat>>, groups: seq<seq<nat>>, shards: nat, most: nat)
    requires Scheduled(est, buckets, shards, most)
    requires |groups| == |buckets| && forall b | 0 <= b < |buckets| :: groups[b] == Ascending(buckets[b])
    ensures Scheduled(est, groups, shards, most)
    ensures forall b | 0 <= b < |groups| :: Sorted(groups[b])
  {
    AscendingFlatten(buckets, groups);
    forall b | 0 <= b < |groups| ensures Files(est, groups[b]) && Sorted(groups[b]) {
      AscendingLoad(est, buckets[b]);
      AscendingSorted(buckets[b]);
    }
    forall b, c | 0 <= b < |groups| && 0 <= c < |groups| && groups[b] != [] && |groups[c]| < most
      ensures GapAtMostCheapest(est, groups[b], groups[c])
    {
      assert GapAtMostCheapest(est, buckets[b], buckets[c]);
      AscendingGap(est, buckets[b], buckets[c]);
    }
  }

  method SortBuckets(buckets: seq<seq<nat>>) returns (groups: seq<seq<nat>>)
    requires forall b | 0 <= b < |buckets| :: buckets[b] != []
    ensures |groups| == |buckets| && forall b | 0 <= b < |buckets| :: groups[b] == Ascending(buckets[b])
  {
    groups := [];
    for b := 0 to |buckets|
      invariant |groups| == b
      invariant forall c | 0 <= c < b :: groups[c] == Ascending(buckets[c])
    {
      if buckets[b] != [] {
        groups := groups + [Ascending(buckets[b])];
      }
    }
  }

  /** The planner for one isolation class.  Every bucket it filled becomes a group,
      so the final filter drops nothing. */
  method BalancedParallelGroups(est: seq<real>) returns (groups: seq<seq<nat>>)
    requires Estimates(est)
    ensures est == [] ==> groups == []
    ensures est != [] ==> Scheduled(est, groups, ShardCount(|est|), MaxFiles(|est|))
    ensures forall b | 0 <= b < |groups| :: Sorted(groups[b])
  {
    groups := [];
    if est == [] { return; }
    var buckets := PlaceAll(est);
    groups := SortBuckets(buckets);
    SortGroups(est, buckets, groups, ShardCount(|est|), MaxFiles(|est|));
  }

  lemma {:induction false} CheapestShare(est: seq<real>, bucket: seq<nat>, floor: real)
    requires Files(est, bucket) && forall k | 0 <= k < |bucket| :: floor <= est[bucket[k]]
    ensures Times(|bucket|, floor) <= Load(est, bucket)
  {
    if bucket != [] { CheapestShare(est, bucket[..|bucket| - 1], floor); }
  }

  /** The schedule's balance as a ratio: a group of `k` files is at most `k/(k-1)`
      times as long as any group with room for another file. */
  lemma LoadRatio(est: seq<real>, groups: seq<seq<nat>>, shards: nat, most: nat, b: nat, c: nat)
    requires Scheduled(est, groups, shards, most) && b < shards && c < shards && |groups[c]| < most
    ensures (|groups[b]| - 1) as real * Load(est, groups[b]) <= |groups[b]| as real * Load(est, groups[c])
  {
    TimesRatio(est, groups, shards, most, b, c);
    AsProducts(|groups[b]| - 1, Load(est, groups[b]), |groups[b]|, Load(est, groups[c]));
  }

  lemma AsProducts(m: nat, x: real, n: nat, y: real)
    requires Times(m, x) <= Times(n, y)
    ensures m as real * x <= n as real * y
  {
    IsProduct(m, x);
    IsProduct(n, y);
  }

  lemma TimesRatio(est: seq<real>, groups: seq<seq<nat>>, shards: nat, most: nat, b: nat, c: nat)
    requires Scheduled(est, groups, shards, most) && b < shards && c < shards && |groups[c]| < most
    ensures Times(|groups[b]| - 1, Load(est, groups[b])) <= Times(|groups[b]|, Load(est, groups[c]))
  {
    var bucket, k := groups[b], |groups[b]|;
    assert GapAtMostCheapest(est, bucket, groups[c]);
    var x: nat :| x < |est| && Cheapest(est, bucket, x) && Load(est, bucket) - est[x] <= Load(est, groups[c]);
    CheapestShare(est, bucket, est[x]);
    TimesIncreasing(k, Load(est, bucket) - est[x], Load(est, groups[c]));
    TimesDifference(k, Load(est, bucket), est[x]);
  }
}
