/** The heap-driven sort of lifecycle components, exact in every outcome. */
module LifecycleSort {
  import opened LifecycleOrder
  import Ranking

  datatype Spec = Spec(id: Id, dependsOn: seq<Id>)

  datatype Outcome =
    | Ordered(order: seq<Id>)
    | DuplicateId
    | MissingDependency(component: Id, missing: set<Id>)
    | DependencyCycle(among: set<Id>)

  function GraphOf(specs: seq<Spec>): Graph {
    if specs == [] then map[]
    else
      var last := specs[|specs| - 1];
      GraphOf(specs[..|specs| - 1])[last.id := last.dependsOn]
  }

  ghost predicate DistinctIds(specs: seq<Spec>) {
    forall i, j | 0 <= i < j < |specs| :: specs[i].id != specs[j].id
  }

  lemma {:induction false} GraphOfSpecs(specs: seq<Spec>)
    requires DistinctIds(specs)
    ensures forall i | 0 <= i < |specs| ::
              specs[i].id in GraphOf(specs) && GraphOf(specs)[specs[i].id] == specs[i].dependsOn
  {
    if specs != [] {
      var front, last := specs[..|specs| - 1], specs[|specs| - 1];
      GraphOfSpecs(front);
      assert forall i | 0 <= i < |front| :: specs[i] == front[i] && front[i].id != last.id;
    }
  }

  /** Every component of the mapping comes from a spec. */
  lemma {:induction false} SpecOf(specs: seq<Spec>, x: Id) returns (i: nat)
    requires x in GraphOf(specs)
    ensures i < |specs| && specs[i].id == x
  {
    i := |specs| - 1;
    if specs[i].id != x { i := SpecOf(specs[..i], x); }
  }

  lemma {:induction false} SpecInGraph(specs: seq<Spec>, i: nat)
    requires i < |specs|
    ensures specs[i].id in GraphOf(specs)
  {
    if i < |specs| - 1 { SpecInGraph(specs[..|specs| - 1], i); }
  }

  /** The mapping has as many entries as there are specs exactly when no id repeats. */
  lemma {:induction false} DistinctBySize(specs: seq<Spec>)
    ensures |GraphOf(specs).Keys| <= |specs|
    ensures |GraphOf(specs).Keys| == |specs| <==> DistinctIds(specs)
  {
    if specs != [] {
      var front, last := specs[..|specs| - 1], specs[|specs| - 1];
      var before := GraphOf(front).Keys;
      DistinctBySize(front);
      assert GraphOf(specs).Keys == before + {last.id};
      if last.id in before {
        assert before + {last.id} == before;
        var i := SpecOf(front, last.id);
        assert specs[i].id == specs[|specs| - 1].id;
      } else {
        forall i | 0 <= i < |front| ensures specs[i].id != last.id { SpecInGraph(front, i); }
        assert DistinctIds(front) ==> DistinctIds(specs) by { NewIdDistinct(specs); }
        assert DistinctIds(specs) ==> DistinctIds(front) by { NewIdDistinct(specs); }
      }
    }
  }

  lemma NewIdDistinct(specs: seq<Spec>)
    requires specs != []
    requires forall i | 0 <= i < |specs| - 1 :: specs[i].id != specs[|specs| - 1].id
    ensures DistinctIds(specs[..|specs| - 1]) <==> DistinctIds(specs)
  {
    var front := specs[..|specs| - 1];
    assert forall i | 0 <= i < |front| :: front[i] == specs[i];
    if DistinctIds(specs) {
      forall i, j | 0 <= i < j < |front| ensures front[i].id != front[j].id {
        assert specs[i].id != specs[j].id;
      }
    }
    if DistinctIds(front) {
      forall i, j | 0 <= i < j < |specs| ensures specs[i].id != specs[j].id {
        if j < |front| { assert front[i].id != front[j].id; }
      }
    }
  }

  lemma EmptyDifference(a: set<Id>, b: set<Id>)
    ensures a - b == {} <==> a <= b
  {
    if a - b == {} {
      forall x | x in a ensures x in b { assert x in b || x in a - b; }
    }
  }

  /** How many entries of a dependency list are not yet in `done`. */
  function Waiting(ds: seq<Id>, done: set<Id>): nat {
    if ds == [] then 0
    else Waiting(ds[..|ds| - 1], done) + if ds[|ds| - 1] in done then 0 else 1
  }

  lemma {:induction false} WaitingDrops(ds: seq<Id>, done: set<Id>, c: Id)
    requires c !in done
    ensures Waiting(ds, done + {c}) + multiset(ds)[c] == Waiting(ds, done)
  {
    if ds != [] {
      WaitingDrops(ds[..|ds| - 1], done, c);
      assert ds == ds[..|ds| - 1] + [ds[|ds| - 1]];
    }
  }

  lemma {:induction false} WaitingForNothing(ds: seq<Id>, done: set<Id>)
    ensures Waiting(ds, done) == 0 <==> Elements(ds) <= done
    ensures Waiting(ds, {}) == |ds|
  {
    if ds != [] {
      WaitingForNothing(ds[..|ds| - 1], done);
      assert ds == ds[..|ds| - 1] + [ds[|ds| - 1]];
      assert Elements(ds) == Elements(ds[..|ds| - 1]) + {ds[|ds| - 1]};
    }
  }

  /** How often the processed part of the graph lists `d` as a dependency of `x`. */
  ghost function Mentions(g: Graph, x: Id, d: Id): nat {
    if x in g then multiset(g[x])[d] else 0
  }

  /** `children` lists each component once per mention, repeated mentions included. */
  ghost predicate Inverts(ids: set<Id>, children: map<Id, seq<Id>>, g: Graph) {
    && children.Keys == ids
    && (forall d | d in ids :: Elements(children[d]) <= ids)
    && (forall d, x | d in ids && x in ids :: multiset(children[d])[x] == Mentions(g, x, d))
  }

  lemma ChildAdded(children: map<Id, seq<Id>>, parent: Id, id: Id, d: Id, x: Id)
    requires parent in children && d in children
    ensures multiset(children[parent := children[parent] + [id]][d])[x] ==
            multiset(children[d])[x] + if d == parent && x == id then 1 else 0
  {
  }

  lemma MentionAdded(g: Graph, id: Id, ds: seq<Id>, j: nat, x: Id, d: Id)
    requires j < |ds|
    ensures Mentions(g[id := ds[..j + 1]], x, d) ==
            Mentions(g[id := ds[..j]], x, d) + if x == id && d == ds[j] then 1 else 0
  {
    OneMoreMention(ds, j);
  }

  lemma InvertOne(ids: set<Id>, children: map<Id, seq<Id>>, g: Graph, id: Id, ds: seq<Id>, j: nat)
    requires j < |ds| && id in ids && ds[j] in ids
    requires Inverts(ids, children, g[id := ds[..j]])
    ensures Inverts(ids, children[ds[j] := children[ds[j]] + [id]], g[id := ds[..j + 1]])
  {
    var after := children[ds[j] := children[ds[j]] + [id]];
    assert Elements(after[ds[j]]) <= ids;
    forall d, x | d in ids && x in ids ensures multiset(after[d])[x] == Mentions(g[id := ds[..j + 1]], x, d) {
      ChildAdded(children, ds[j], id, d, x);
      MentionAdded(g, id, ds, j, x, d);
    }
  }

  /** The inner loop: `id` becomes a child of each dependency it lists. */
  method AddChild(ghost ids: set<Id>, children: map<Id, seq<Id>>, ghost g: Graph, id: Id, ds: seq<Id>)
    returns (after: map<Id, seq<Id>>)
    requires id in ids && id !in g && Elements(ds) <= ids
    requires Inverts(ids, children, g)
    ensures Inverts(ids, after, g[id := ds])
  {
    after := children;
    for j := 0 to |ds|
      invariant Inverts(ids, after, g[id := ds[..j]])
    {
      assert ds[j] in Elements(ds);
      InvertOne(ids, after, g, id, ds, j);
      after := after[ds[j] := after[ds[j]] + [id]];
    }
    assert ds[..|ds|] == ds;
  }

  /** Reads the specs into child lists, or finds the first missing dependency. */
  method InvertDependencies(specs: seq<Spec>) returns (children: map<Id, seq<Id>>, failure: seq<Outcome>)
    requires DistinctIds(specs)
    ensures failure == [] ==> Closed(GraphOf(specs)) && Inverts(GraphOf(specs).Keys, children, GraphOf(specs))
    ensures failure != [] ==> |failure| == 1 && FirstMissing(specs, failure[0])
  {
    var ids := GraphOf(specs).Keys;
    children := map id | id in ids :: [];
    for i := 0 to |specs|
      invariant Reading(specs, ids, i, children)
    {
      var missing := Elements(specs[i].dependsOn) - ids;
      ReadNext(specs, ids, i, children);
      if missing != {} {
        return children, [MissingDependency(specs[i].id, missing)];
      }
      ghost var before := children;
      children := AddChild(ids, children, GraphOf(specs[..i]), specs[i].id, specs[i].dependsOn);
      ReadOne(specs, ids, i, before, children);
    }
    ReadAll(specs, ids, children);
    failure := [];
  }

  ghost predicate Reading(specs: seq<Spec>, ids: set<Id>, i: nat, children: map<Id, seq<Id>>) {
    && i <= |specs|
    && Inverts(ids, children, GraphOf(specs[..i]))
    && forall k | 0 <= k < i :: Elements(specs[k].dependsOn) <= ids
  }

  lemma ReadNext(specs: seq<Spec>, ids: set<Id>, i: nat, children: map<Id, seq<Id>>)
    requires DistinctIds(specs) && ids == GraphOf(specs).Keys
    requires i < |specs| && Reading(specs, ids, i, children)
    ensures Inverts(ids, children, GraphOf(specs[..i]))
    ensures specs[i].id in ids && specs[i].id !in GraphOf(specs[..i])
    ensures GraphOf(specs[..i + 1]) == GraphOf(specs[..i])[specs[i].id := specs[i].dependsOn]
    ensures var missing := Elements(specs[i].dependsOn) - ids;
            if missing == {} then Elements(specs[i].dependsOn) <= ids
            else FirstMissing(specs, MissingDependency(specs[i].id, missing))
  {
    PrefixGraph(specs, i);
    SpecInGraph(specs, i);
    EmptyDifference(Elements(specs[i].dependsOn), ids);
  }

  lemma ReadOne(specs: seq<Spec>, ids: set<Id>, i: nat, before: map<Id, seq<Id>>, children: map<Id, seq<Id>>)
    requires i < |specs| && Reading(specs, ids, i, before) && Elements(specs[i].dependsOn) <= ids
    requires GraphOf(specs[..i + 1]) == GraphOf(specs[..i])[specs[i].id := specs[i].dependsOn]
    requires Inverts(ids, children, GraphOf(specs[..i])[specs[i].id := specs[i].dependsOn])
    ensures Reading(specs, ids, i + 1, children)
  {
  }

  lemma ReadAll(specs: seq<Spec>, ids: set<Id>, children: map<Id, seq<Id>>)
    requires DistinctIds(specs) && ids == GraphOf(specs).Keys
    requires Reading(specs, ids, |specs|, children)
    ensures Closed(GraphOf(specs)) && Inverts(GraphOf(specs).Keys, children, GraphOf(specs))
  {
    GraphOfSpecs(specs);
    assert specs[..|specs|] == specs;
    forall x | x in GraphOf(specs) ensures Elements(GraphOf(specs)[x]) <= ids {
      var k := SpecOf(specs, x);
    }
  }

  lemma PrefixGraph(specs: seq<Spec>, i: nat)
    requires DistinctIds(specs) && i < |specs|
    ensures specs[i].id !in GraphOf(specs[..i])
    ensures GraphOf(specs[..i + 1]) == GraphOf(specs[..i])[specs[i].id := specs[i].dependsOn]
  {
    forall x | x in GraphOf(specs[..i]) ensures x != specs[i].id {
      var k := SpecOf(specs[..i], x);
      assert specs[k].id == x;
    }
    assert specs[..i + 1][..i] == specs[..i];
  }

  /** The error names the first component with a missing dependency, and what is missing. */
  ghost predicate FirstMissing(specs: seq<Spec>, r: Outcome) {
    && r.MissingDependency?
    && r.missing != {}
    && exists i :: 0 <= i < |specs| && specs[i].id == r.component
                   && r.missing == Elements(specs[i].dependsOn) - GraphOf(specs).Keys
                   && forall k | 0 <= k < i :: Elements(specs[k].dependsOn) <= GraphOf(specs).Keys
  }

  /** The state between two pops of the heap. */
  ghost predicate Kahn(deps: Graph, order: seq<Id>, ready: set<Id>, indegree: map<Id, nat>) {
    && StartsInOrder(deps, order)
    && LeastChoices(deps, order)
    && indegree.Keys == deps.Keys
    && (forall x | x in deps :: indegree[x] == Waiting(deps[x], Elements(order)))
    && ready == Available(deps, Elements(order))
  }

  /** The state inside a pop, with `i` children of `c` released so far. */
  ghost predicate Releasing(deps: Graph, done: set<Id>, c: Id, released: multiset<Id>,
                            ready: set<Id>, indegree: map<Id, nat>)
  {
    && DegreesAre(deps, done, released, indegree)
    && ready == ReadyNow(deps, done, c, indegree)
  }

  ghost predicate DegreesAre(deps: Graph, done: set<Id>, released: multiset<Id>, indegree: map<Id, nat>) {
    && indegree.Keys == deps.Keys
    && (forall x | x in deps :: indegree[x] + released[x] == Waiting(deps[x], done))
  }

  ghost function ReadyNow(deps: Graph, done: set<Id>, c: Id, indegree: map<Id, nat>): set<Id>
    requires indegree.Keys == deps.Keys
  {
    set x | x in deps && x !in done && x != c && indegree[x] == 0
  }

  lemma ReleaseStart(deps: Graph, order: seq<Id>, c: Id, ready: set<Id>, indegree: map<Id, nat>)
    requires Kahn(deps, order, ready, indegree) && c in ready
    ensures Releasing(deps, Elements(order), c, multiset{}, ready - {c}, indegree)
  {
    forall x | x in deps ensures indegree[x] == 0 <==> Elements(deps[x]) <= Elements(order) {
      WaitingForNothing(deps[x], Elements(order));
    }
  }

  lemma ReleaseEnd(deps: Graph, order: seq<Id>, c: Id, released: multiset<Id>, ready: set<Id>, indegree: map<Id, nat>)
    requires StartsInOrder(deps, order) && LeastChoices(deps, order)
    requires LeastOf(c, Available(deps, Elements(order)))
    requires forall x | x in deps :: released[x] == multiset(deps[x])[c]
    requires Releasing(deps, Elements(order), c, released, ready, indegree)
    ensures Kahn(deps, order + [c], ready, indegree)
  {
    var after := order + [c];
    var done := Elements(order);
    assert Elements(after) == done + {c};
    forall x | x in deps
      ensures indegree[x] == Waiting(deps[x], Elements(after))
      ensures indegree[x] == 0 <==> Elements(deps[x]) <= Elements(after)
    {
      WaitingDrops(deps[x], done, c);
      WaitingForNothing(deps[x], Elements(after));
    }
    forall k | 0 <= k < |after|
      ensures after[k] in Available(deps, Elements(after[..k]))
      ensures LeastOf(after[k], Available(deps, Elements(after[..k])))
    {
      assert after[..k] == order[..k];
      if k == |order| { assert order[..k] == order; }
    }
  }

  /** A component in the order has all its dependencies in the order. */
  lemma DependenciesDone(deps: Graph, order: seq<Id>, x: Id)
    requires StartsInOrder(deps, order)
    ensures x in order ==> x in deps && Elements(deps[x]) <= Elements(order)
  {
    if x in order {
      var k :| 0 <= k < |order| && order[k] == x;
      assert x in Available(deps, Elements(order[..k]));
      assert Elements(order[..k]) <= Elements(order);
    }
  }

  function Lowered(indegree: map<Id, nat>, child: Id): map<Id, nat>
    requires child in indegree && indegree[child] > 0
  {
    indegree[child := indegree[child] - 1]
  }

  /** A child with mentions of `c` left is neither done nor `c`, and still waits. */
  lemma StillWaits(deps: Graph, order: seq<Id>, c: Id, released: nat, child: Id)
    requires StartsInOrder(deps, order) && c in Available(deps, Elements(order))
    requires child in deps && released < multiset(deps[child])[c]
    ensures child !in Elements(order) && child != c && Waiting(deps[child], Elements(order)) > released
  {
    WaitingDrops(deps[child], Elements(order), c);
    assert c in Elements(deps[child]);
    DependenciesDone(deps, order, child);
    assert Elements(deps[c]) <= Elements(order);
  }

  lemma LoweredDegrees(deps: Graph, done: set<Id>, released: multiset<Id>, indegree: map<Id, nat>, child: Id)
    requires DegreesAre(deps, done, released, indegree) && child in deps && indegree[child] > 0
    ensures DegreesAre(deps, done, released + multiset{child}, Lowered(indegree, child))
  {
    var more := released + multiset{child};
    forall x | x in deps ensures more[x] == released[x] + if x == child then 1 else 0 {
    }
  }

  lemma LoweredReady(deps: Graph, done: set<Id>, c: Id, indegree: map<Id, nat>, child: Id)
    requires indegree.Keys == deps.Keys
    requires child in deps && child !in done && child != c && indegree[child] > 0
    ensures var ready, after := ReadyNow(deps, done, c, indegree), Lowered(indegree, child);
            ReadyNow(deps, done, c, after) == if after[child] == 0 then ready + {child} else ready
  {
  }

  lemma LowerDegree(deps: Graph, done: set<Id>, c: Id, released: multiset<Id>, ready: set<Id>,
                    indegree: map<Id, nat>, child: Id)
    requires Releasing(deps, done, c, released, ready, indegree)
    requires child in deps && child !in done && child != c && indegree[child] > 0
    ensures var after := Lowered(indegree, child);
            Releasing(deps, done, c, released + multiset{child},
                      if after[child] == 0 then ready + {child} else ready, after)
  {
    LoweredDegrees(deps, done, released, indegree, child);
    LoweredReady(deps, done, c, indegree, child);
  }

  /** The body of the `for child` loop. */
  lemma ReleaseChild(deps: Graph, order: seq<Id>, c: Id, released: multiset<Id>, ready: set<Id>,
                     indegree: map<Id, nat>, child: Id)
    requires StartsInOrder(deps, order) && c in Available(deps, Elements(order))
    requires Releasing(deps, Elements(order), c, released, ready, indegree)
    requires child in deps && released[child] < multiset(deps[child])[c]
    ensures indegree[child] > 0
    ensures var after := Lowered(indegree, child);
            Releasing(deps, Elements(order), c, released + multiset{child},
                      if after[child] == 0 then ready + {child} else ready, after)
  {
    StillWaits(deps, order, c, released[child], child);
    LowerDegree(deps, Elements(order), c, released, ready, indegree, child);
  }

  /** The children of `c` in list order release each component once per mention. */
  lemma ChildrenMentions(deps: Graph, children: map<Id, seq<Id>>, c: Id, i: nat)
    requires Inverts(deps.Keys, children, deps) && c in deps && i < |children[c]|
    ensures children[c][i] in deps
    ensures multiset(children[c][..i])[children[c][i]] < multiset(deps[children[c][i]])[c]
  {
    var x := children[c][i];
    assert x in Elements(children[c]);
    assert children[c] == children[c][..i] + [x] + children[c][i + 1..];
    assert multiset(children[c])[x] == Mentions(deps, x, c);
  }

  lemma OneMoreMention(s: seq<Id>, i: nat)
    requires i < |s|
    ensures multiset(s[..i + 1]) == multiset(s[..i]) + multiset{s[i]}
  {
    assert s[..i + 1] == s[..i] + [s[i]];
  }

  lemma ReleaseNext(deps: Graph, order: seq<Id>, c: Id, children: map<Id, seq<Id>>, i: nat, ready: set<Id>,
                    indegree: map<Id, nat>)
    requires Inverts(deps.Keys, children, deps) && StartsInOrder(deps, order) && c in Available(deps, Elements(order))
    requires i < |children[c]| && Releasing(deps, Elements(order), c, multiset(children[c][..i]), ready, indegree)
    ensures var child := children[c][i];
            && child in indegree && indegree[child] > 0
            && var after := Lowered(indegree, child);
               Releasing(deps, Elements(order), c, multiset(children[c][..i + 1]),
                         if after[child] == 0 then ready + {child} else ready, after)
  {
    ChildrenMentions(deps, children, c, i);
    OneMoreMention(children[c], i);
    ReleaseChild(deps, order, c, multiset(children[c][..i]), ready, indegree, children[c][i]);
  }

  lemma ReleasedAll(deps: Graph, order: seq<Id>, c: Id, children: map<Id, seq<Id>>, ready: set<Id>,
                    indegree: map<Id, nat>)
    requires Inverts(deps.Keys, children, deps) && c in deps
    requires StartsInOrder(deps, order) && LeastChoices(deps, order)
    requires LeastOf(c, Available(deps, Elements(order)))
    requires Releasing(deps, Elements(order), c, multiset(children[c][..|children[c]|]), ready, indegree)
    ensures Kahn(deps, order + [c], ready, indegree)
  {
    assert children[c][..|children[c]|] == children[c];
    assert forall x | x in deps :: multiset(children[c])[x] == Mentions(deps, x, c);
    ReleaseEnd(deps, order, c, multiset(children[c]), ready, indegree);
  }

  method Release(ghost deps: Graph, ghost order: seq<Id>, c: Id, children: map<Id, seq<Id>>, ready: set<Id>,
                 indegree: map<Id, nat>) returns (ready': set<Id>, indegree': map<Id, nat>)
    requires Inverts(deps.Keys, children, deps)
    requires Kahn(deps, order, ready, indegree) && LeastOf(c, ready)
    ensures Kahn(deps, order + [c], ready', indegree')
  {
    ready', indegree' := ready - {c}, indegree;
    ReleaseStart(deps, order, c, ready, indegree);
    assert children[c][..0] == [];
    for i := 0 to |children[c]|
      invariant Releasing(deps, Elements(order), c, multiset(children[c][..i]), ready', indegree')
    {
      var child := children[c][i];
      ReleaseNext(deps, order, c, children, i, ready', indegree');
      indegree' := Lowered(indegree', child);
      ready' := if indegree'[child] == 0 then ready' + {child} else ready';
    }
    ReleasedAll(deps, order, c, children, ready', indegree');
  }

  lemma {:induction false} LeastExists(s: set<Id>) returns (x: Id)
    requires s != {}
    ensures LeastOf(x, s)
  {
    x :| x in s;
    if s != {x} {
      var y := LeastExists(s - {x});
      if y < x {
        assert forall z | z in s :: z == x || z in s - {x};
        x := y;
      } else {
        assert forall z | z in s :: z == x || z in s - {x};
      }
    }
  }

  /** heapq.heappop on the ready heap. */
  method PopLeast(ready: set<Id>) returns (c: Id)
    requires ready != {}
    ensures LeastOf(c, ready)
  {
    ghost var x := LeastExists(ready);
    c :| c in ready && forall y | y in ready :: c <= y;
  }

  lemma KahnStart(specs: seq<Spec>, ready: set<Id>, indegree: map<Id, nat>)
    requires DistinctIds(specs) && Closed(GraphOf(specs))
    requires indegree.Keys == GraphOf(specs).Keys
    requires forall x | x in indegree :: indegree[x] == |GraphOf(specs)[x]|
    requires ready == (set x | x in indegree && indegree[x] == 0)
    ensures Kahn(GraphOf(specs), [], ready, indegree)
  {
    var deps := GraphOf(specs);
    assert Elements([]) == {};
    forall x | x in deps
      ensures indegree[x] == Waiting(deps[x], {})
      ensures indegree[x] == 0 <==> Elements(deps[x]) <= {}
    {
      WaitingForNothing(deps[x], {});
    }
  }

  /** What the constructor promises of its result. */
  ghost predicate Correct(specs: seq<Spec>, r: Outcome) {
    var deps := GraphOf(specs);
    match r
    case DuplicateId => !DistinctIds(specs)
    case MissingDependency(_, _) => DistinctIds(specs) && !Closed(deps) && FirstMissing(specs, r)
    case DependencyCycle(among) =>
      DistinctIds(specs) && Closed(deps) && among != {} && among == set x | x in deps && ReachesCycle(deps, x)
    case Ordered(order) =>
      && DistinctIds(specs) && Closed(deps) && Acyclic(deps)
      && ValidOrder(deps, order)
      && forall other | ValidOrder(deps, other) :: LexLeq(order, other)
  }

  lemma KahnEnd(deps: Graph, order: seq<Id>, indegree: map<Id, nat>)
    requires Closed(deps) && Kahn(deps, order, {}, indegree)
    ensures Elements(order) <= deps.Keys
    ensures forall x | x in deps :: x in order <==> !ReachesCycle(deps, x)
    ensures forall x | x in deps :: x in order <==> indegree[x] == 0
  {
    forall x | x in order ensures x in deps { DependenciesDone(deps, order, x); }
    forall x | x in deps ensures x in order <==> !ReachesCycle(deps, x) {
      LeftOutReachCycles(deps, order, x);
    }
    forall x | x in deps ensures x in order <==> indegree[x] == 0 {
      WaitingForNothing(deps[x], Elements(order));
      DependenciesDone(deps, order, x);
      if x !in order { assert x !in Available(deps, Elements(order)); }
    }
  }

  lemma KahnEndOrdered(specs: seq<Spec>, order: seq<Id>, indegree: map<Id, nat>)
    requires DistinctIds(specs) && Closed(GraphOf(specs)) && |order| == |specs|
    requires Kahn(GraphOf(specs), order, {}, indegree)
    ensures Correct(specs, Ordered(order))
  {
    var deps := GraphOf(specs);
    KahnEnd(deps, order, indegree);
    OrderSize(specs, order);
    forall other | ValidOrder(deps, other) ensures LexLeq(order, other) {
      LeastChoicesAreLeast(deps, order, other);
    }
  }

  lemma KahnEndCycle(specs: seq<Spec>, order: seq<Id>, indegree: map<Id, nat>, among: set<Id>)
    requires DistinctIds(specs) && Closed(GraphOf(specs)) && |order| != |specs|
    requires Kahn(GraphOf(specs), order, {}, indegree)
    requires among == set x | x in indegree && indegree[x] != 0
    ensures Correct(specs, DependencyCycle(among))
  {
    OrderWithin(GraphOf(specs), order);
    OrderSize(specs, order);
    LeftOut(GraphOf(specs), order, indegree, among);
  }

  lemma OrderWithin(deps: Graph, order: seq<Id>)
    requires StartsInOrder(deps, order)
    ensures Elements(order) <= deps.Keys
  {
    forall x | x in order ensures x in deps { DependenciesDone(deps, order, x); }
  }

  lemma LeftOut(deps: Graph, order: seq<Id>, indegree: map<Id, nat>, among: set<Id>)
    requires Closed(deps) && Kahn(deps, order, {}, indegree) && Elements(order) != deps.Keys
    requires among == set x | x in indegree && indegree[x] != 0
    ensures among == (set x | x in deps && ReachesCycle(deps, x))
    ensures among != {}
  {
    KahnEnd(deps, order, indegree);
    var x :| x in deps && x !in Elements(order);
    assert x in among;
  }

  lemma OrderSize(specs: seq<Spec>, order: seq<Id>)
    requires DistinctIds(specs) && StartsInOrder(GraphOf(specs), order) && Elements(order) <= GraphOf(specs).Keys
    ensures |order| == |specs| <==> Elements(order) == GraphOf(specs).Keys
  {
    var keys := GraphOf(specs).Keys;
    InOrderDistinct(GraphOf(specs), order);
    Ranking.DistinctSetSize(order);
    DistinctBySize(specs);
    assert keys == Elements(order) + (keys - Elements(order));
  }

  lemma MissingNotClosed(specs: seq<Spec>, r: Outcome)
    requires DistinctIds(specs) && FirstMissing(specs, r)
    ensures Correct(specs, r)
  {
    GraphOfSpecs(specs);
  }

  /** The sort itself, once the specs are read. */
  method Sort(ghost deps: Graph, children: map<Id, seq<Id>>, degrees: map<Id, nat>)
    returns (order: seq<Id>, indegree: map<Id, nat>)
    requires Inverts(deps.Keys, children, deps)
    requires Kahn(deps, [], (set x | x in degrees && degrees[x] == 0), degrees)
    ensures Kahn(deps, order, {}, indegree)
  {
    indegree := degrees;
    var ready := set x | x in indegree && indegree[x] == 0;
    order := [];
    while ready != {}
      invariant Kahn(deps, order, ready, indegree)
      decreases |deps.Keys - Elements(order)|
    {
      var c := PopLeast(ready);
      Shrinks(deps, order, c);
      ready, indegree := Release(deps, order, c, children, ready, indegree);
      order := order + [c];
    }
  }

  /** The manager's constructor and its sort: exact in every outcome. */
  method TopologicalOrder(specs: seq<Spec>) returns (r: Outcome)
    ensures Correct(specs, r)
  {
    DistinctBySize(specs);
    if |GraphOf(specs).Keys| != |specs| {
      return DuplicateId;
    }
    var children, failure := InvertDependencies(specs);
    if failure != [] {
      MissingNotClosed(specs, failure[0]);
      return failure[0];
    }
    var degrees := map x | x in GraphOf(specs) :: |GraphOf(specs)[x]|;
    KahnStart(specs, (set x | x in degrees && degrees[x] == 0), degrees);
    var order, indegree := Sort(GraphOf(specs), children, degrees);
    if |order| != |specs| {
      var among := set x | x in indegree && indegree[x] != 0;
      KahnEndCycle(specs, order, indegree, among);
      return DependencyCycle(among);
    }
    KahnEndOrdered(specs, order, indegree);
    return Ordered(order);
  }

  lemma Shrinks(deps: Graph, order: seq<Id>, c: Id)
    requires c in deps && c !in order
    ensures |deps.Keys - Elements(order + [c])| < |deps.Keys - Elements(order)|
  {
    assert deps.Keys - Elements(order) == (deps.Keys - Elements(order + [c])) + {c};
  }
}
