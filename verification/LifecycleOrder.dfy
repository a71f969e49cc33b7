/** The dependency order of lifecycle components. */
module LifecycleOrder {
  import opened Ranking

  /** A component id is represented by its rank in the string order the heap uses. */
  type Id = nat

  type Graph = map<Id, seq<Id>>

  /** Every dependency names a component. */
  ghost predicate Closed(deps: Graph) {
    forall x | x in deps :: Elements(deps[x]) <= deps.Keys
  }

  function Elements(s: seq<Id>): set<Id> {
    set x | x in s
  }

  /** What may start once `done` has: components not in it whose dependencies all are. */
  ghost function Available(deps: Graph, done: set<Id>): set<Id> {
    set x | x in deps && x !in done && Elements(deps[x]) <= done
  }

  /** Start orders: every component once, each after all its dependencies. */
  ghost predicate ValidOrder(deps: Graph, o: seq<Id>) {
    && Elements(o) == deps.Keys
    && StartsInOrder(deps, o)
  }

  ghost predicate StartsInOrder(deps: Graph, o: seq<Id>) {
    forall k | 0 <= k < |o| :: o[k] in Available(deps, Elements(o[..k]))
  }

  /** Each choice of `o` is the least id available at that point. */
  ghost predicate LeastChoices(deps: Graph, o: seq<Id>) {
    forall k | 0 <= k < |o| :: LeastOf(o[k], Available(deps, Elements(o[..k])))
  }

  ghost predicate LeastOf(x: Id, s: set<Id>) {
    x in s && forall y | y in s :: x <= y
  }

  ghost predicate LexLeq(a: seq<Id>, b: seq<Id>) {
    a == b || exists k :: 0 <= k < |a| && k < |b| && a[..k] == b[..k] && a[k] < b[k]
  }

  lemma ValidOrderLength(deps: Graph, o: seq<Id>)
    requires ValidOrder(deps, o)
    ensures |o| == |deps|
  {
    InOrderDistinct(deps, o);
    DistinctSetSize(o);
    assert Elements(o) == set x | x in o;
  }

  lemma InOrderDistinct(deps: Graph, o: seq<Id>)
    requires StartsInOrder(deps, o)
    ensures forall j, k | 0 <= j < k < |o| :: o[j] != o[k]
  {
    forall j, k | 0 <= j < k < |o| ensures o[j] != o[k] {
      assert o[..k][j] == o[j];
      assert o[k] in Available(deps, Elements(o[..k]));
    }
  }

  /** Where two orders first differ, the one of least choices is ahead. */
  lemma LeastAtDifference(deps: Graph, a: seq<Id>, b: seq<Id>, n: nat)
    requires LeastChoices(deps, a) && StartsInOrder(deps, b)
    requires n < |a| && n < |b| && a[..n] == b[..n] && a[n] != b[n]
    ensures LexLeq(a, b)
  {
    assert LeastOf(a[n], Available(deps, Elements(a[..n])));
    assert b[n] in Available(deps, Elements(b[..n]));
  }

  lemma {:induction false} FirstDifference(a: seq<Id>, b: seq<Id>) returns (n: nat)
    requires |a| == |b|
    ensures n <= |a| && a[..n] == b[..n] && (n < |a| ==> a[n] != b[n])
  {
    if a == [] || a[0] != b[0] {
      n := 0;
    } else {
      n := FirstDifference(a[1..], b[1..]);
      n := n + 1;
      assert a[..n] == [a[0]] + a[1..][..n - 1] && b[..n] == [b[0]] + b[1..][..n - 1];
    }
  }

  /** The least choices give the lexicographically least start order. */
  lemma LeastChoicesAreLeast(deps: Graph, a: seq<Id>, b: seq<Id>)
    requires ValidOrder(deps, a) && LeastChoices(deps, a) && ValidOrder(deps, b)
    ensures LexLeq(a, b)
  {
    ValidOrderLength(deps, a);
    ValidOrderLength(deps, b);
    var n := FirstDifference(a, b);
    if n == |a| {
      assert a == a[..n] && b == b[..n];
    } else {
      LeastAtDifference(deps, a, b, n);
    }
  }

  /** A walk along dependencies. */
  ghost predicate DependencyPath(deps: Graph, p: seq<Id>) {
    && p != []
    && (forall i | 0 <= i < |p| :: p[i] in deps)
    && (forall i | 0 < i < |p| :: p[i] in deps[p[i - 1]])
  }

  ghost predicate Distinct(p: seq<Id>) {
    forall i, j | 0 <= i < j < |p| :: p[i] != p[j]
  }

  /** `x` lies on a cycle or transitively depends on one: some walk from it comes
      back to a component it has been at. */
  ghost predicate ReachesCycle(deps: Graph, x: Id) {
    exists p :: DependencyPath(deps, p) && p[0] == x && !Distinct(p)
  }

  /** Walks from an ordered component stay among its predecessors and never repeat. */
  lemma {:induction false} OrderedPathsDistinct(deps: Graph, o: seq<Id>, k: nat, p: seq<Id>)
    requires StartsInOrder(deps, o) && k < |o|
    requires DependencyPath(deps, p) && p[0] == o[k]
    ensures Distinct(p) && Elements(p) <= Elements(o[..k + 1])
    decreases k
  {
    assert o[k] in Available(deps, Elements(o[..k]));
    assert o[..k + 1] == o[..k] + [o[k]];
    if |p| > 1 {
      var rest := p[1..];
      assert rest[0] in Elements(deps[p[0]]);
      var j :| 0 <= j < k && o[..k][j] == rest[0];
      forall i | 0 < i < |rest| ensures rest[i] in deps[rest[i - 1]] {
        assert p[i + 1] in deps[p[i]];
      }
      OrderedPathsDistinct(deps, o, j, rest);
      forall i | 0 < i < |p| ensures p[i] in Elements(o[..k]) {
        assert p[i] == rest[i - 1] && rest[i - 1] in Elements(rest);
        var l :| 0 <= l < j + 1 && o[..j + 1][l] == p[i];
        assert o[..k][l] == p[i];
      }
      forall i, l | 0 <= i < l < |p| ensures p[i] != p[l] {
        if i > 0 { assert rest[i - 1] != rest[l - 1]; }
      }
    }
  }

  /** Among components that each wait for another of them, walks go on for ever. */
  lemma {:induction false} StuckWalk(deps: Graph, stuck: set<Id>, x: Id, n: nat) returns (p: seq<Id>)
    requires stuck <= deps.Keys && x in stuck
    requires forall y | y in stuck :: Elements(deps[y]) * stuck != {}
    ensures DependencyPath(deps, p) && |p| == n + 1 && p[0] == x && Elements(p) <= stuck
    decreases n
  {
    if n == 0 {
      p := [x];
    } else {
      var y :| y in Elements(deps[x]) * stuck;
      var rest := StuckWalk(deps, stuck, y, n - 1);
      p := [x] + rest;
      forall i | 0 < i < |p| ensures p[i] in deps[p[i - 1]] {
        if i > 1 { assert rest[i - 1] in deps[rest[i - 2]]; }
      }
      assert forall i | 0 <= i < |rest| :: p[i + 1] == rest[i] && rest[i] in Elements(rest);
    }
  }

  lemma TooLongToBeDistinct(p: seq<Id>, s: set<Id>)
    requires Elements(p) <= s && |p| > |s|
    ensures !Distinct(p)
  {
    if Distinct(p) {
      DistinctSetSize(p);
      assert Elements(p) == set x | x in p;
      SubsetSize(Elements(p), s);
    }
  }

  /** The components left out when nothing more is available are exactly those that
      lie on a cycle or transitively depend on one. */
  lemma LeftOutReachCycles(deps: Graph, o: seq<Id>, x: Id)
    requires Closed(deps) && StartsInOrder(deps, o) && Available(deps, Elements(o)) == {}
    requires x in deps
    ensures x !in o <==> ReachesCycle(deps, x)
  {
    if x in o {
      var k :| 0 <= k < |o| && o[k] == x;
      forall p | DependencyPath(deps, p) && p[0] == x ensures Distinct(p) {
        OrderedPathsDistinct(deps, o, k, p);
      }
    } else {
      var stuck := deps.Keys - Elements(o);
      forall y | y in stuck ensures Elements(deps[y]) * stuck != {} {
        assert y !in Available(deps, Elements(o));
        var d :| d in Elements(deps[y]) && d !in Elements(o);
        assert d in Elements(deps[y]) * stuck;
      }
      var p := StuckWalk(deps, stuck, x, |stuck|);
      TooLongToBeDistinct(p, stuck);
    }
  }

  ghost predicate Acyclic(deps: Graph) {
    forall x | x in deps :: !ReachesCycle(deps, x)
  }
}
