/** Routes in the closed world: breadth-first search for the first step of a shortest
    path. */
module WorldGraph {
  import opened Options
  import opened Ranking

  type Place = string

  type Graph = map<Place, seq<Place>>

  function Neighbours(g: Graph, x: Place): seq<Place> {
    if x in g then g[x] else []
  }

  ghost predicate Walk(g: Graph, p: seq<Place>) {
    p != [] && forall i | 0 < i < |p| :: p[i] in Neighbours(g, p[i - 1])
  }

  ghost predicate WalkBetween(g: Graph, s: Place, t: Place, p: seq<Place>) {
    Walk(g, p) && p[0] == s && p[|p| - 1] == t
  }

  ghost predicate Reaches(g: Graph, s: Place, t: Place) {
    exists p :: WalkBetween(g, s, t, p)
  }

  ghost predicate Shortest(g: Graph, s: Place, t: Place, p: seq<Place>) {
    WalkBetween(g, s, t, p) && forall q | WalkBetween(g, s, t, q) :: |p| <= |q|
  }

  /** `h` is where a shortest walk from `s` to `t` goes first. */
  ghost predicate FirstHop(g: Graph, s: Place, t: Place, h: Place) {
    exists p :: Shortest(g, s, t, p) && |p| > 1 && p[1] == h
  }

  lemma {:induction false} ShortestExists(g: Graph, s: Place, t: Place, p: seq<Place>) returns (q: seq<Place>)
    requires WalkBetween(g, s, t, p)
    ensures Shortest(g, s, t, q)
    decreases |p|
  {
    q := p;
    if r :| WalkBetween(g, s, t, r) && |r| < |p| {
      q := ShortestExists(g, s, t, r);
    }
  }

  ghost function ShortestWalk(g: Graph, s: Place, t: Place): (q: seq<Place>)
    requires Reaches(g, s, t)
    ensures Shortest(g, s, t, q)
  {
    var p :| WalkBetween(g, s, t, p);
    assert exists q :: Shortest(g, s, t, q) by { var q := ShortestExists(g, s, t, p); }
    var q :| Shortest(g, s, t, q);
    q
  }

  ghost function Distance(g: Graph, s: Place, t: Place): nat
    requires Reaches(g, s, t)
  {
    |ShortestWalk(g, s, t)| - 1
  }

  lemma DistanceIs(g: Graph, s: Place, t: Place, p: seq<Place>)
    requires Shortest(g, s, t, p)
    ensures Reaches(g, s, t) && Distance(g, s, t) == |p| - 1
  {
  }

  lemma DistanceAtMost(g: Graph, s: Place, t: Place, p: seq<Place>)
    requires WalkBetween(g, s, t, p)
    ensures Reaches(g, s, t) && Distance(g, s, t) <= |p| - 1
  {
  }

  lemma JoinWalks(g: Graph, s: Place, m: Place, t: Place, p: seq<Place>, q: seq<Place>)
    requires WalkBetween(g, s, m, p) && WalkBetween(g, m, t, q)
    ensures WalkBetween(g, s, t, p + q[1..])
  {
    var r := p + q[1..];
    forall i | 0 < i < |r| ensures r[i] in Neighbours(g, r[i - 1]) {
      if i >= |p| {
        assert r[i] == q[i - |p| + 1] && r[i - 1] == q[i - |p|];
      }
    }
  }

  lemma ReachesTransitive(g: Graph, s: Place, m: Place, t: Place)
    requires Reaches(g, s, m) && Reaches(g, m, t)
    ensures Reaches(g, s, t)
  {
    var p :| WalkBetween(g, s, m, p);
    var q :| WalkBetween(g, m, t, q);
    JoinWalks(g, s, m, t, p, q);
  }

  lemma ReachesSelf(g: Graph, s: Place)
    ensures Reaches(g, s, s) && Distance(g, s, s) == 0
  {
    assert WalkBetween(g, s, s, [s]);
    DistanceAtMost(g, s, s, [s]);
  }

  lemma TailWalk(g: Graph, s: Place, t: Place, p: seq<Place>)
    requires WalkBetween(g, s, t, p) && |p| > 1
    ensures WalkBetween(g, p[1], t, p[1..])
  {
    var rest := p[1..];
    forall i | 0 < i < |rest| ensures rest[i] in Neighbours(g, rest[i - 1]) {
      assert p[i + 1] in Neighbours(g, p[i]);
    }
  }

  /** Taking the first hop brings the target one step closer. */
  lemma HopIsCloser(g: Graph, s: Place, t: Place, h: Place)
    requires FirstHop(g, s, t, h)
    ensures h in Neighbours(g, s) && Reaches(g, s, t) && Reaches(g, h, t)
    ensures Distance(g, h, t) + 1 == Distance(g, s, t)
  {
    var p :| Shortest(g, s, t, p) && |p| > 1 && p[1] == h;
    DistanceIs(g, s, t, p);
    TailWalk(g, s, t, p);
    DistanceAtMost(g, h, t, p[1..]);
    var q := ShortestWalk(g, h, t);
    assert p[1] in Neighbours(g, p[0]);
    assert WalkBetween(g, s, h, [s, h]);
    JoinWalks(g, s, h, t, [s, h], q);
  }

  /** Every place the search can see. */
  function Places(g: Graph, s: Place): set<Place> {
    {s} + g.Keys + set x, i | x in g && 0 <= i < |g[x]| :: g[x][i]
  }

  function OnMap(g: Graph): set<Place> {
    g.Keys + set x, i | x in g && 0 <= i < |g[x]| :: g[x][i]
  }

  lemma OneMore(all: set<Place>, x: Place)
    ensures |{x} + all| <= |all| + 1
  {
    if x in all { assert {x} + all == all; }
  }

  lemma PlacesAtMost(g: Graph, s: Place)
    ensures |Places(g, s)| <= |OnMap(g)| + 1
  {
    assert Places(g, s) == {s} + OnMap(g);
    OneMore(OnMap(g), s);
  }

  lemma WalkWithinPlaces(g: Graph, s: Place, p: seq<Place>, i: nat)
    requires Walk(g, p) && p[0] == s && i < |p|
    ensures p[i] in Places(g, s)
  {
    if i > 0 {
      assert p[i] in Neighbours(g, p[i - 1]);
    }
  }

  /** A shortest walk repeats no place, so no distance reaches the number of places. */
  lemma DistanceBelowPlaces(g: Graph, s: Place, t: Place)
    requires Reaches(g, s, t)
    ensures Distance(g, s, t) < |Places(g, s)|
  {
    var p := ShortestWalk(g, s, t);
    forall i, j | 0 <= i < j < |p| ensures p[i] != p[j] {
      if p[i] == p[j] { Shortcut(g, s, t, p, i, j); }
    }
    DistinctSetSize(p);
    var visited := set x | x in p;
    forall x | x in visited ensures x in Places(g, s) {
      var i :| 0 <= i < |p| && p[i] == x;
      WalkWithinPlaces(g, s, p, i);
    }
    SubsetSize(visited, Places(g, s));
  }

  lemma Shortcut(g: Graph, s: Place, t: Place, p: seq<Place>, i: nat, j: nat)
    requires WalkBetween(g, s, t, p) && i < j < |p| && p[i] == p[j]
    ensures exists q :: WalkBetween(g, s, t, q) && |q| < |p|
  {
    var q := p[..i + 1] + p[j + 1..];
    forall k | 0 < k < |q| ensures q[k] in Neighbours(g, q[k - 1]) {
      if k <= i {
        assert p[k] in Neighbours(g, p[k - 1]);
      } else {
        assert p[k + j - i] in Neighbours(g, p[k + j - i - 1]);
      }
    }
    assert WalkBetween(g, s, t, q);
  }

  // ---- Breadth-first search ----

  datatype Entry = Entry(place: Place, path: seq<Place>)

  /** The search state: places whose neighbours have all been looked at, places seen,
      and how far from the source each was found. */
  datatype Search = Search(expanded: set<Place>, seen: set<Place>, depth: map<Place, nat>)

  ghost predicate QueueSound(g: Graph, s: Place, queue: seq<Entry>, b: Search) {
    && (forall i | 0 <= i < |queue| :: EntrySound(g, s, queue[i], b))
    && (forall i, j | 0 <= i < j < |queue| :: queue[i].place != queue[j].place)
  }

  ghost predicate EntrySound(g: Graph, s: Place, e: Entry, b: Search) {
    && e.place in b.seen && e.place !in b.expanded && e.place in b.depth
    && WalkBetween(g, s, e.place, [s] + e.path) && |e.path| == b.depth[e.place]
  }

  ghost predicate Queued(queue: seq<Entry>, v: Place) {
    exists i :: 0 <= i < |queue| && queue[i].place == v
  }

  /** Facts about the places seen that hold throughout, for a current depth `d`. */
  ghost predicate SeenSound(g: Graph, s: Place, t: Place, b: Search, d: nat) {
    && Measured(b) && b.seen <= Places(g, s) && s in b.seen && b.depth[s] == 0 && t !in b.seen
    && DepthsWithin(b, d) && EdgesSound(g, b)
  }

  ghost predicate Measured(b: Search) {
    b.depth.Keys == b.seen && b.expanded <= b.seen
  }

  ghost predicate DepthsWithin(b: Search, d: nat)
    requires Measured(b)
  {
    && (forall v | v in b.seen :: b.depth[v] <= d + 1)
    && (forall v | v in b.seen && v !in b.expanded :: b.depth[v] >= d)
  }

  ghost predicate EdgesSound(g: Graph, b: Search)
    requires Measured(b)
  {
    forall u, v | u in b.expanded && v in Neighbours(g, u) :: v in b.seen && b.depth[v] <= b.depth[u] + 1
  }

  /** The queue is in order of depth. */
  ghost predicate DepthOrder(queue: seq<Entry>, d: nat) {
    && (forall i | 0 <= i < |queue| :: d <= |queue[i].path| <= d + 1)
    && (forall i, j | 0 <= i < j < |queue| :: |queue[i].path| <= |queue[j].path|)
  }

  /** Between two pops. */
  ghost predicate Pending(g: Graph, s: Place, t: Place, queue: seq<Entry>, b: Search, d: nat) {
    && QueueSound(g, s, queue, b) && SeenSound(g, s, t, b, d) && DepthOrder(queue, d)
    && (forall v | v in b.seen && v !in b.expanded :: Queued(queue, v))
    && (queue != [] ==> |queue[0].path| == d)
  }

  /** While the popped entry's first `k` neighbours have been looked at. */
  ghost predicate Expanding(g: Graph, s: Place, t: Place, e: Entry, k: nat, queue: seq<Entry>, b: Search) {
    && EntrySound(g, s, e, b) && k <= |Neighbours(g, e.place)|
    && QueueSound(g, s, queue, b) && SeenSound(g, s, t, b, |e.path|) && DepthOrder(queue, |e.path|)
    && AllQueued(e.place, queue, b)
    && (forall i | 0 <= i < k :: Neighbours(g, e.place)[i] in b.seen)
  }

  /** A walk that has stayed among expanded places is no shorter than the depth found. */
  lemma {:induction false} DepthIsLeast(g: Graph, s: Place, t: Place, b: Search, d: nat, p: seq<Place>, i: nat)
    requires SeenSound(g, s, t, b, d)
    requires Walk(g, p) && p[0] == s && i < |p|
    requires forall j | 0 <= j < i :: p[j] in b.expanded
    ensures p[i] in b.seen && b.depth[p[i]] <= i
  {
    if i > 0 {
      DepthIsLeast(g, s, t, b, d, p, i - 1);
      assert p[i] in Neighbours(g, p[i - 1]);
    }
  }

  /** So a walk to the unseen target leaves the expanded places, at depth `d` or later,
      and takes at least one more step. */
  lemma TargetIsFarther(g: Graph, s: Place, t: Place, b: Search, d: nat, p: seq<Place>)
    requires SeenSound(g, s, t, b, d) && WalkBetween(g, s, t, p)
    ensures b.expanded != b.seen && |p| >= d + 2
  {
    var i := 0;
    while i < |p| && p[i] in b.expanded
      invariant i <= |p|
      invariant forall j | 0 <= j < i :: p[j] in b.expanded
    {
      i := i + 1;
    }
    if i < |p| { DepthIsLeast(g, s, t, b, d, p, i); }
  }

  lemma PopEntry(g: Graph, s: Place, t: Place, queue: seq<Entry>, b: Search, d: nat)
    requires Pending(g, s, t, queue, b, d) && queue != []
    ensures Expanding(g, s, t, queue[0], 0, queue[1..], b)
  {
    forall v | v in b.seen && v !in b.expanded ensures v == queue[0].place || Queued(queue[1..], v) {
      var i :| 0 <= i < |queue| && queue[i].place == v;
      assert i > 0 ==> queue[1..][i - 1].place == v;
    }
    assert QueueSound(g, s, queue[1..], b);
  }

  lemma SkipSeen(g: Graph, s: Place, t: Place, e: Entry, k: nat, queue: seq<Entry>, b: Search)
    requires Expanding(g, s, t, e, k, queue, b) && k < |Neighbours(g, e.place)|
    requires Neighbours(g, e.place)[k] in b.seen
    ensures Expanding(g, s, t, e, k + 1, queue, b)
  {
  }

  function See(b: Search, v: Place, depth: nat): Search {
    Search(b.expanded, b.seen + {v}, b.depth[v := depth])
  }

  lemma StepWalk(g: Graph, s: Place, e: Entry, v: Place)
    requires WalkBetween(g, s, e.place, [s] + e.path) && v in Neighbours(g, e.place)
    ensures WalkBetween(g, s, v, [s] + (e.path + [v]))
  {
    var p, q := [s] + e.path, [s] + (e.path + [v]);
    assert q == p + [v];
    forall i | 0 < i < |q| ensures q[i] in Neighbours(g, q[i - 1]) {
      if i < |p| { assert p[i] in Neighbours(g, p[i - 1]); }
    }
  }

  lemma QueueGrows(g: Graph, s: Place, queue: seq<Entry>, b: Search, e: Entry, after: Search)
    requires QueueSound(g, s, queue, b) && EntrySound(g, s, e, after)
    requires e.place !in b.seen && after == See(b, e.place, |e.path|)
    ensures QueueSound(g, s, queue + [e], after)
  {
    var grown := queue + [e];
    forall i | 0 <= i < |grown| ensures EntrySound(g, s, grown[i], after) {
      if i < |queue| { assert EntrySound(g, s, queue[i], b); }
    }
    forall i, j | 0 <= i < j < |grown| ensures grown[i].place != grown[j].place {
      assert EntrySound(g, s, queue[i], b);
    }
  }

  lemma OrderGrows(queue: seq<Entry>, d: nat, e: Entry)
    requires DepthOrder(queue, d) && |e.path| == d + 1
    ensures DepthOrder(queue + [e], d)
  {
  }

  lemma SeenGrows(g: Graph, s: Place, t: Place, b: Search, d: nat, v: Place)
    requires SeenSound(g, s, t, b, d) && v !in b.seen && v != t && v in Places(g, s)
    ensures SeenSound(g, s, t, See(b, v, d + 1), d)
  {
  }

  lemma QueuedGrows(queue: seq<Entry>, e: Entry, x: Place)
    requires x == e.place || Queued(queue, x)
    ensures Queued(queue + [e], x)
  {
    var grown := queue + [e];
    if x == e.place {
      assert grown[|queue|].place == x;
    } else {
      var i :| 0 <= i < |queue| && queue[i].place == x;
      assert grown[i].place == x;
    }
  }

  /** Looking at a new neighbour queues an entry for it. */
  lemma NewEntrySound(g: Graph, s: Place, e: Entry, b: Search, v: Place)
    requires EntrySound(g, s, e, b) && v in Neighbours(g, e.place) && v !in b.seen && v !in b.expanded
    ensures v in Places(g, s) && EntrySound(g, s, Entry(v, e.path + [v]), See(b, v, |e.path| + 1))
  {
    StepWalk(g, s, e, v);
    WalkWithinPlaces(g, s, [s] + (e.path + [v]), |e.path| + 1);
  }

  /** Every seen place not yet expanded is the one being expanded, or queued. */
  ghost predicate AllQueued(current: Place, queue: seq<Entry>, b: Search) {
    !Queued(queue, current) && forall v | v in b.seen && v !in b.expanded :: v == current || Queued(queue, v)
  }

  lemma StillQueued(current: Place, queue: seq<Entry>, b: Search, e: Entry, after: Search)
    requires AllQueued(current, queue, b) && e.place != current
    requires after.expanded == b.expanded && after.seen == b.seen + {e.place}
    ensures AllQueued(current, queue + [e], after)
  {
    forall x | x in after.seen && x !in after.expanded ensures x == current || Queued(queue + [e], x) {
      if x != current { QueuedGrows(queue, e, x); }
    }
  }

  lemma VisitNew(g: Graph, s: Place, t: Place, e: Entry, k: nat, queue: seq<Entry>, b: Search, v: Place)
    requires Expanding(g, s, t, e, k, queue, b) && k < |Neighbours(g, e.place)|
    requires v == Neighbours(g, e.place)[k] && v !in b.seen && v != t
    ensures Expanding(g, s, t, e, k + 1, queue + [Entry(v, e.path + [v])], See(b, v, |e.path| + 1))
  {
    var found, after := Entry(v, e.path + [v]), See(b, v, |e.path| + 1);
    NewEntrySound(g, s, e, b, v);
    SeenGrows(g, s, t, b, |e.path|, v);
    QueueGrows(g, s, queue, b, found, after);
    OrderGrows(queue, |e.path|, found);
    StillQueued(e.place, queue, b, found, after);
  }

  lemma QueueAfterEntry(g: Graph, s: Place, e: Entry, queue: seq<Entry>, b: Search, after: Search)
    requires QueueSound(g, s, queue, b) && !Queued(queue, e.place)
    requires after == Expanded(b, e.place)
    ensures QueueSound(g, s, queue, after)
  {
    forall i | 0 <= i < |queue| ensures EntrySound(g, s, queue[i], after) {
      assert EntrySound(g, s, queue[i], b) && queue[i].place != e.place;
    }
  }

  lemma EdgesAfterEntry(g: Graph, x: Place, b: Search)
    requires Measured(b) && EdgesSound(g, b) && x in b.seen
    requires forall v | v in Neighbours(g, x) :: v in b.seen && b.depth[v] <= b.depth[x] + 1
    ensures EdgesSound(g, Expanded(b, x))
  {
  }

  lemma DepthsAfterEntry(g: Graph, s: Place, x: Place, queue: seq<Entry>, b: Search, d: nat, next: nat)
    requires Measured(b) && x in b.seen && DepthsWithin(b, d) && QueueSound(g, s, queue, b) && AllQueued(x, queue, b)
    requires d <= next && forall i | 0 <= i < |queue| :: next <= |queue[i].path|
    ensures DepthsWithin(Expanded(b, x), next)
  {
    forall v | v in b.seen && v !in Expanded(b, x).expanded ensures b.depth[v] >= next {
      var i :| 0 <= i < |queue| && queue[i].place == v;
      assert EntrySound(g, s, queue[i], b);
    }
  }

  lemma OrderAfterEntry(queue: seq<Entry>, d: nat)
    requires DepthOrder(queue, d) && queue != []
    ensures d <= |queue[0].path| && DepthOrder(queue, |queue[0].path|)
  {
  }

  function Expanded(b: Search, x: Place): Search {
    b.(expanded := b.expanded + {x})
  }

  /** The depth of the next entry. */
  function NextDepth(e: Entry, queue: seq<Entry>): nat {
    if queue == [] then |e.path| else |queue[0].path|
  }

  lemma LessLeft(all: set<Place>, done: set<Place>, x: Place)
    requires x in all && x !in done
    ensures |all - (done + {x})| < |all - done|
  {
    assert all - done == (all - (done + {x})) + {x};
  }

  lemma FinishEntry(g: Graph, s: Place, t: Place, e: Entry, queue: seq<Entry>, b: Search)
    requires Expanding(g, s, t, e, |Neighbours(g, e.place)|, queue, b)
    ensures Pending(g, s, t, queue, Expanded(b, e.place), NextDepth(e, queue))
    ensures |Places(g, s) - Expanded(b, e.place).expanded| < |Places(g, s) - b.expanded|
  {
    QueueAfterEntry(g, s, e, queue, b, Expanded(b, e.place));
    EdgesAfterEntry(g, e.place, b);
    if queue != [] { OrderAfterEntry(queue, |e.path|); }
    DepthsAfterEntry(g, s, e.place, queue, b, |e.path|, NextDepth(e, queue));
    LessLeft(Places(g, s), b.expanded, e.place);
  }

  /** What the route lookup promises: nothing exactly when there is no route, and
      otherwise the first step of a shortest one. */
  ghost predicate NextStep(g: Graph, s: Place, t: Place, r: Option<Place>) {
    if s == t then r == Some(s)
    else if r == None then !Reaches(g, s, t)
    else FirstHop(g, s, t, r.value)
  }

  lemma FoundTarget(g: Graph, s: Place, t: Place, e: Entry, k: nat, queue: seq<Entry>, b: Search)
    requires Expanding(g, s, t, e, k, queue, b) && k < |Neighbours(g, e.place)|
    requires Neighbours(g, e.place)[k] == t && s != t
    ensures NextStep(g, s, t, Some((e.path + [t])[0]))
  {
    StepWalk(g, s, e, t);
    var p := [s] + (e.path + [t]);
    forall q | WalkBetween(g, s, t, q) ensures |p| <= |q| {
      TargetIsFarther(g, s, t, b, |e.path|, q);
    }
    assert Shortest(g, s, t, p) && p[1] == (e.path + [t])[0];
  }

  method ShortestNext(g: Graph, s: Place, t: Place) returns (r: Option<Place>)
    ensures NextStep(g, s, t, r)
  {
    if s == t { return Some(s); }
    var queue := [Entry(s, [])];
    var seen := {s};
    ghost var b := Search({}, {s}, map[s := 0]);
    ghost var d: nat := 0;
    StartSearch(g, s, t);
    while queue != []
      invariant Pending(g, s, t, queue, b, d) && seen == b.seen
      decreases |Places(g, s) - b.expanded|
    {
      PopEntry(g, s, t, queue, b, d);
      var current := queue[0];
      queue := queue[1..];
      var neighbours := Neighbours(g, current.place);
      ghost var expanded := b.expanded;
      for k := 0 to |neighbours|
        invariant Expanding(g, s, t, current, k, queue, b) && seen == b.seen
        invariant b.expanded == expanded
      {
        var neighbour := neighbours[k];
        if neighbour in seen {
          SkipSeen(g, s, t, current, k, queue, b);
          continue;
        }
        var nextPath := current.path + [neighbour];
        if neighbour == t {
          FoundTarget(g, s, t, current, k, queue, b);
          return Some(nextPath[0]);
        }
        VisitNew(g, s, t, current, k, queue, b, neighbour);
        seen := seen + {neighbour};
        queue := queue + [Entry(neighbour, nextPath)];
        b := See(b, neighbour, |current.path| + 1);
      }
      FinishEntry(g, s, t, current, queue, b);
      d, b := NextDepth(current, queue), Expanded(b, current.place);
    }
    NoRoute(g, s, t, b, d);
    return None;
  }

  lemma StartSearch(g: Graph, s: Place, t: Place)
    requires s != t
    ensures Pending(g, s, t, [Entry(s, [])], Search({}, {s}, map[s := 0]), 0)
  {
    assert [s] + [] == [s];
    assert [Entry(s, [])][0].place == s;
  }

  lemma NoRoute(g: Graph, s: Place, t: Place, b: Search, d: nat)
    requires s != t && Pending(g, s, t, [], b, d)
    ensures NextStep(g, s, t, None)
  {
    assert b.expanded == b.seen;
    forall p | WalkBetween(g, s, t, p) ensures false {
      TargetIsFarther(g, s, t, b, d, p);
    }
  }
}
