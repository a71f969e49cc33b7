/** Starting and stopping all components in dependency order, with rollback. */
module LifecycleRun {
  import opened LifecycleOrder

  datatype Call = Start(id: Id) | Stop(id: Id)

  datatype Phase = Starting | Ready | Stopping | Stopped | Failed

  datatype Evidence = Evidence(id: Id, phase: Phase)

  datatype StartReport =
    | Started(order: seq<Id>, evidence: seq<Evidence>)
    | StartFailed(component: Id, started: seq<Id>, rollbackFailures: seq<Id>)

  function Starts(o: seq<Id>): (calls: seq<Call>) {
    seq(|o|, i requires 0 <= i < |o| => Start(o[i]))
  }

  function StartEvidence(o: seq<Id>): seq<Evidence> {
    if o == [] then []
    else
      var cid := o[|o| - 1];
      StartEvidence(o[..|o| - 1]) + [Evidence(cid, Starting), Evidence(cid, Ready)]
  }

  function StopEvidence(o: seq<Id>, stopFails: set<Id>): seq<Evidence> {
    if o == [] then []
    else
      var cid := o[|o| - 1];
      [Evidence(cid, Stopping), Evidence(cid, if cid in stopFails then Failed else Stopped)]
      + StopEvidence(o[..|o| - 1], stopFails)
  }

  function StopsBack(o: seq<Id>): (calls: seq<Call>) {
    seq(|o|, i requires 0 <= i < |o| => Stop(o[|o| - 1 - i]))
  }

  /** The ids of `o`, last first, that are in `s`. */
  function BackwardsIn(o: seq<Id>, s: set<Id>): seq<Id> {
    if o == [] then []
    else (if o[|o| - 1] in s then [o[|o| - 1]] else []) + BackwardsIn(o[..|o| - 1], s)
  }

  /** Components whose start succeeded and that have not been asked to stop since. */
  ghost function Live(calls: seq<Call>, startFails: set<Id>): set<Id> {
    if calls == [] then {}
    else
      var before := Live(calls[..|calls| - 1], startFails);
      match calls[|calls| - 1]
      case Start(id) => if id in startFails then before else before + {id}
      case Stop(id) => before - {id}
  }

  /** Components left running: like `Live`, but a stop that fails stops nothing. */
  ghost function Running(calls: seq<Call>, startFails: set<Id>, stopFails: set<Id>): set<Id> {
    if calls == [] then {}
    else
      var before := Running(calls[..|calls| - 1], startFails, stopFails);
      match calls[|calls| - 1]
      case Start(id) => if id in startFails then before else before + {id}
      case Stop(id) => if id in stopFails then before else before - {id}
  }

  ghost predicate DependencyClosed(deps: Graph, up: set<Id>) {
    forall x | x in up :: x in deps && Elements(deps[x]) <= up
  }

  /** At every moment of the call sequence, whatever is live has its dependencies live. */
  ghost predicate AlwaysClosed(deps: Graph, calls: seq<Call>, startFails: set<Id>) {
    forall n | 0 <= n <= |calls| :: DependencyClosed(deps, Live(calls[..n], startFails))
  }

  /** The first component of the order whose start fails, or the length of the order. */
  ghost predicate FirstFailure(o: seq<Id>, startFails: set<Id>, k: nat) {
    && k <= |o|
    && (forall i | 0 <= i < k :: o[i] !in startFails)
    && (k < |o| ==> o[k] in startFails)
  }

  /** The calls of a start_all whose first failing component is at position `k`. */
  function StartAllCalls(o: seq<Id>, k: nat): seq<Call>
    requires k <= |o|
  {
    if k == |o| then Starts(o) else Starts(o[..k]) + [Start(o[k])] + StopsBack(o[..k])
  }

  /** What start_all reports when its first failing component is at position `k`. */
  function StartAllReport(o: seq<Id>, k: nat, stopFails: set<Id>): StartReport
    requires k <= |o|
  {
    if k == |o| then Started(o, StartEvidence(o)) else StartFailed(o[k], o[..k], BackwardsIn(o[..k], stopFails))
  }

  lemma LastStops(o: seq<Id>, n: nat, stopFails: set<Id>)
    requires n < |o|
    ensures StopsBack(o[..n + 1]) == [Stop(o[n])] + StopsBack(o[..n])
    ensures BackwardsIn(o[..n + 1], stopFails) ==
            (if o[n] in stopFails then [o[n]] else []) + BackwardsIn(o[..n], stopFails)
    ensures StopEvidence(o[..n + 1], stopFails) ==
            [Evidence(o[n], Stopping), Evidence(o[n], if o[n] in stopFails then Failed else Stopped)]
            + StopEvidence(o[..n], stopFails)
  {
    assert o[..n + 1][..n] == o[..n];
  }

  method StartAll(order: seq<Id>, startFails: set<Id>, stopFails: set<Id>)
    returns (calls: seq<Call>, report: StartReport)
    ensures exists k :: FirstFailure(order, startFails, k) && calls == StartAllCalls(order, k)
                        && report == StartAllReport(order, k, stopFails)
  {
    var started: seq<Id> := [];
    var evidence: seq<Evidence> := [];
    calls := [];
    for n := 0 to |order|
      invariant started == order[..n] && calls == Starts(started)
      invariant FirstFailure(order[..n], startFails, n)
      invariant evidence == StartEvidence(started)
    {
      var cid := order[n];
      evidence := evidence + [Evidence(cid, Starting)];
      calls := calls + [Start(cid)];
      if cid in startFails {
        assert forall i | 0 <= i < n :: order[..n][i] == order[i];
        var rollback, stops := Rollback(started, stopFails);
        assert FirstFailure(order, startFails, n);
        return calls + stops, StartFailed(cid, started, rollback);
      }
      assert (started + [cid])[..n] == started;
      started := started + [cid];
      evidence := evidence + [Evidence(cid, Ready)];
      assert forall i | 0 <= i < n :: order[..n][i] == order[i];
    }
    assert order[..|order|] == order;
    assert FirstFailure(order, startFails, |order|);
    return calls, Started(order, evidence);
  }

  /** The rollback loop: one stop call each, in reverse start order. */
  method Rollback(started: seq<Id>, stopFails: set<Id>) returns (failures: seq<Id>, stops: seq<Call>)
    ensures stops == StopsBack(started) && failures == BackwardsIn(started, stopFails)
  {
    failures, stops := [], [];
    assert started[..|started|] == started;
    for n := |started| downto 0
      invariant stops + StopsBack(started[..n]) == StopsBack(started)
      invariant failures + BackwardsIn(started[..n], stopFails) == BackwardsIn(started, stopFails)
    {
      var previous := started[n];
      LastStops(started, n, stopFails);
      stops := stops + [Stop(previous)];
      if previous in stopFails {
        failures := failures + [previous];
      }
    }
  }

  lemma {:induction false} LiveAfterStarts(o: seq<Id>, startFails: set<Id>, stopFails: set<Id>)
    requires forall i | 0 <= i < |o| :: o[i] !in startFails
    ensures Live(Starts(o), startFails) == Elements(o) == Running(Starts(o), startFails, stopFails)
  {
    if o != [] {
      var front := o[..|o| - 1];
      LiveAfterStarts(front, startFails, stopFails);
      assert Starts(o)[..|o| - 1] == Starts(front);
      assert o == front + [o[|o| - 1]];
    }
  }

  lemma StopCalled(calls: seq<Call>, x: Id, startFails: set<Id>, stopFails: set<Id>)
    ensures Live(calls + [Stop(x)], startFails) == Live(calls, startFails) - {x}
    ensures Running(calls + [Stop(x)], startFails, stopFails) ==
            Running(calls, startFails, stopFails) - ({x} - stopFails)
  {
    assert (calls + [Stop(x)])[..|calls|] == calls;
  }

  lemma OneStopMore(calls: seq<Call>, o: seq<Id>, j: nat)
    requires 0 < j <= |o|
    ensures calls + StopsBack(o)[..j] == (calls + StopsBack(o)[..j - 1]) + [Stop(o[|o| - j])]
  {
  }

  lemma WithoutLast(o: seq<Id>, n: nat)
    requires Distinct(o) && n < |o|
    ensures Elements(o[..n + 1]) == Elements(o[..n]) + {o[n]}
    ensures o[n] in Elements(o) && o[n] !in Elements(o[..n])
  {
    assert o[..n + 1] == o[..n] + [o[n]];
  }

  /** After `j` of the reverse-order stops, the rest of the started prefix is live,
      and only components whose stop failed are running beyond it. */
  lemma {:induction false} LiveDuringStops(calls: seq<Call>, o: seq<Id>, startFails: set<Id>, stopFails: set<Id>,
                                           j: nat)
    requires Distinct(o) && j <= |o|
    requires Live(calls, startFails) == Elements(o) == Running(calls, startFails, stopFails)
    ensures Live(calls + StopsBack(o)[..j], startFails) == Elements(o[..|o| - j])
    ensures Running(calls + StopsBack(o)[..j], startFails, stopFails) ==
            Elements(o[..|o| - j]) + (Elements(o) * stopFails)
  {
    if j == 0 {
      assert calls + StopsBack(o)[..0] == calls && o[..|o|] == o;
    } else {
      LiveDuringStops(calls, o, startFails, stopFails, j - 1);
      OneStopMore(calls, o, j);
      StopCalled(calls + StopsBack(o)[..j - 1], o[|o| - j], startFails, stopFails);
      WithoutLast(o, |o| - j);
    }
  }

  lemma PrefixClosed(deps: Graph, order: seq<Id>, n: nat)
    requires StartsInOrder(deps, order) && n <= |order|
    ensures DependencyClosed(deps, Elements(order[..n]))
  {
    forall x | x in order[..n] ensures x in deps && Elements(deps[x]) <= Elements(order[..n]) {
      var k :| 0 <= k < n && order[..n][k] == x;
      assert x in Available(deps, Elements(order[..k]));
      assert order[..n][..k] == order[..k];
    }
  }

  lemma ClosedDuringStarts(deps: Graph, order: seq<Id>, startFails: set<Id>, n: nat)
    requires StartsInOrder(deps, order) && n <= |order| && forall i | 0 <= i < n :: order[i] !in startFails
    ensures DependencyClosed(deps, Live(Starts(order)[..n], startFails))
  {
    assert Starts(order)[..n] == Starts(order[..n]);
    LiveAfterStarts(order[..n], startFails, {});
    PrefixClosed(deps, order, n);
  }

  lemma ClosedAfterFailure(deps: Graph, order: seq<Id>, startFails: set<Id>, k: nat, j: nat)
    requires StartsInOrder(deps, order) && k < |order| && FirstFailure(order, startFails, k) && j <= k
    ensures var calls := Starts(order[..k]) + [Start(order[k])] + StopsBack(order[..k])[..j];
            DependencyClosed(deps, Live(calls, startFails))
  {
    FailedStartLive(order, startFails, {}, k);
    PrefixInOrder(deps, order, k);
    ClosedDuringStops(deps, Starts(order[..k]) + [Start(order[k])], order[..k], startFails, j);
  }

  /** Whatever fails, during start_all the live components are closed under
      dependencies at every moment. */
  lemma StartAllAlwaysClosed(deps: Graph, order: seq<Id>, startFails: set<Id>, k: nat)
    requires ValidOrder(deps, order) && FirstFailure(order, startFails, k)
    ensures AlwaysClosed(deps, StartAllCalls(order, k), startFails)
  {
    var calls := StartAllCalls(order, k);
    forall n | 0 <= n <= |calls| ensures DependencyClosed(deps, Live(calls[..n], startFails)) {
      if n <= k {
        assert calls[..n] == Starts(order)[..n];
        ClosedDuringStarts(deps, order, startFails, n);
      } else {
        ClosedAfterFailure(deps, order, startFails, k, n - k - 1);
        assert calls[..n] == Starts(order[..k]) + [Start(order[k])] + StopsBack(order[..k])[..n - k - 1];
      }
    }
  }

  lemma PrefixInOrder(deps: Graph, order: seq<Id>, k: nat)
    requires StartsInOrder(deps, order) && k <= |order|
    ensures StartsInOrder(deps, order[..k])
  {
    forall i | 0 <= i < k ensures order[..k][i] in Available(deps, Elements(order[..k][..i])) {
      assert order[..k][..i] == order[..i];
      assert order[i] in Available(deps, Elements(order[..i]));
    }
  }

  lemma ClosedDuringStops(deps: Graph, calls: seq<Call>, o: seq<Id>, startFails: set<Id>, j: nat)
    requires StartsInOrder(deps, o) && j <= |o|
    requires Live(calls, startFails) == Elements(o) == Running(calls, startFails, {})
    ensures DependencyClosed(deps, Live(calls + StopsBack(o)[..j], startFails))
  {
    InOrderDistinct(deps, o);
    LiveDuringStops(calls, o, startFails, {}, j);
    PrefixClosed(deps, o, |o| - j);
  }

  lemma FailedStartLive(order: seq<Id>, startFails: set<Id>, stopFails: set<Id>, k: nat)
    requires k < |order| && FirstFailure(order, startFails, k)
    ensures var failed := Starts(order[..k]) + [Start(order[k])];
            Live(failed, startFails) == Elements(order[..k]) == Running(failed, startFails, stopFails)
  {
    LiveAfterStarts(order[..k], startFails, stopFails);
    var failed := Starts(order[..k]) + [Start(order[k])];
    assert failed[..k] == Starts(order[..k]);
  }

  /** A failed start_all leaves running exactly the started components whose
      rollback stop failed; a successful one leaves all of them. */
  lemma StartAllLeavesRunning(deps: Graph, order: seq<Id>, startFails: set<Id>, stopFails: set<Id>, k: nat)
    requires ValidOrder(deps, order) && FirstFailure(order, startFails, k)
    ensures Running(StartAllCalls(order, k), startFails, stopFails) ==
            if k == |order| then deps.Keys else Elements(order[..k]) * stopFails
  {
    InOrderDistinct(deps, order);
    if k == |order| {
      LiveAfterStarts(order, startFails, stopFails);
    } else {
      FailedStartLive(order, startFails, stopFails, k);
      var failed := Starts(order[..k]) + [Start(order[k])];
      LiveDuringStops(failed, order[..k], startFails, stopFails, k);
      assert StopsBack(order[..k])[..k] == StopsBack(order[..k]);
    }
  }

  method StopAll(order: seq<Id>, stopFails: set<Id>)
    returns (calls: seq<Call>, evidence: seq<Evidence>, failures: seq<Id>)
    ensures calls == StopsBack(order)
    ensures failures == BackwardsIn(order, stopFails)
    ensures evidence == StopEvidence(order, stopFails)
  {
    calls, evidence, failures := [], [], [];
    assert order[..|order|] == order;
    for n := |order| downto 0
      invariant calls + StopsBack(order[..n]) == StopsBack(order)
      invariant failures + BackwardsIn(order[..n], stopFails) == BackwardsIn(order, stopFails)
      invariant evidence + StopEvidence(order[..n], stopFails) == StopEvidence(order, stopFails)
    {
      var cid := order[n];
      LastStops(order, n, stopFails);
      calls := calls + [Stop(cid)];
      evidence := evidence + [Evidence(cid, Stopping)];
      if cid in stopFails {
        failures := failures + [cid];
        evidence := evidence + [Evidence(cid, Failed)];
      } else {
        evidence := evidence + [Evidence(cid, Stopped)];
      }
    }
  }

  /** stop_all after a successful start_all: no component is asked to stop while a
      dependent of it is live, and only components whose stop failed stay running. */
  lemma StopAllSafe(deps: Graph, order: seq<Id>, startFails: set<Id>, stopFails: set<Id>)
    requires ValidOrder(deps, order) && FirstFailure(order, startFails, |order|)
    ensures AlwaysClosed(deps, Starts(order) + StopsBack(order), startFails)
    ensures Running(Starts(order) + StopsBack(order), startFails, stopFails) == deps.Keys * stopFails
  {
    InOrderDistinct(deps, order);
    LiveAfterStarts(order, startFails, stopFails);
    LiveAfterStarts(order, startFails, {});
    var calls := Starts(order) + StopsBack(order);
    forall n | 0 <= n <= |calls| ensures DependencyClosed(deps, Live(calls[..n], startFails)) {
      if n <= |order| {
        assert calls[..n] == Starts(order)[..n];
        ClosedDuringStarts(deps, order, startFails, n);
      } else {
        assert calls[..n] == Starts(order) + StopsBack(order)[..n - |order|];
        ClosedDuringStops(deps, Starts(order), order, startFails, n - |order|);
      }
    }
    LiveDuringStops(Starts(order), order, startFails, stopFails, |order|);
    assert StopsBack(order)[..|order|] == StopsBack(order);
  }

  // ---- What is reported ----

  /** The failures listed are the ids of `o` in `s`, from the last to the first. */
  lemma {:induction false} BackwardsInExact(o: seq<Id>, s: set<Id>)
    ensures Elements(BackwardsIn(o, s)) == Elements(o) * s
  {
    if o != [] {
      var front, last := o[..|o| - 1], o[|o| - 1];
      BackwardsInExact(front, s);
      assert o == front + [last];
      assert Elements(o) == Elements(front) + {last};
      var head := if last in s then [last] else [];
      assert Elements(head + BackwardsIn(front, s)) == Elements(head) + Elements(BackwardsIn(front, s));
    }
  }

  /** Of two failures listed, the one listed first was started later. */
  lemma {:induction false} BackwardsInOrder(o: seq<Id>, s: set<Id>, i: nat, j: nat) returns (a: nat, b: nat)
    requires i < j < |BackwardsIn(o, s)|
    ensures b < a < |o| && o[a] == BackwardsIn(o, s)[i] && o[b] == BackwardsIn(o, s)[j]
  {
    var n := |o| - 1;
    var rest := BackwardsIn(o[..n], s);
    if o[n] !in s {
      a, b := BackwardsInOrder(o[..n], s, i, j);
    } else if i > 0 {
      a, b := BackwardsInOrder(o[..n], s, i - 1, j - 1);
    } else {
      a := n;
      b := ListedFrom(o[..n], s, j - 1);
    }
  }

  lemma {:induction false} ListedFrom(o: seq<Id>, s: set<Id>, j: nat) returns (b: nat)
    requires j < |BackwardsIn(o, s)|
    ensures b < |o| && o[b] == BackwardsIn(o, s)[j]
  {
    var n := |o| - 1;
    if o[n] in s && j == 0 {
      b := n;
    } else {
      b := ListedFrom(o[..n], s, if o[n] in s then j - 1 else j);
    }
  }

  /** A failed start names the first component that failed and those started before it,
      and lists as rollback failures exactly the components it leaves running. */
  lemma FailedStartReports(deps: Graph, order: seq<Id>, startFails: set<Id>, stopFails: set<Id>, k: nat)
    requires ValidOrder(deps, order) && FirstFailure(order, startFails, k) && k < |order|
    ensures var report := StartAllReport(order, k, stopFails);
            && report.StartFailed? && report.component == order[k] && report.component in startFails
            && report.started == order[..k]
            && Elements(report.rollbackFailures) == Running(StartAllCalls(order, k), startFails, stopFails)
  {
    StartAllLeavesRunning(deps, order, startFails, stopFails, k);
    BackwardsInExact(order[..k], stopFails);
  }

  /** stop_all lists as failures exactly the components it leaves running. */
  lemma StopFailuresAreRunning(deps: Graph, order: seq<Id>, startFails: set<Id>, stopFails: set<Id>)
    requires ValidOrder(deps, order) && FirstFailure(order, startFails, |order|)
    ensures Elements(BackwardsIn(order, stopFails)) ==
            Running(Starts(order) + StopsBack(order), startFails, stopFails)
  {
    StopAllSafe(deps, order, startFails, stopFails);
    BackwardsInExact(order, stopFails);
  }

  /** The evidence of a start: each component starting and then ready, in start order. */
  lemma {:induction false} StartEvidenceAt(o: seq<Id>, i: nat)
    requires i < |o|
    ensures |StartEvidence(o)| == 2 * |o|
    ensures StartEvidence(o)[2 * i] == Evidence(o[i], Starting)
    ensures StartEvidence(o)[2 * i + 1] == Evidence(o[i], Ready)
  {
    var n := |o| - 1;
    if n > 0 { StartEvidenceAt(o[..n], if i < n then i else 0); }
  }

  /** The evidence of a stop: each component stopping and then stopped or failed, in
      reverse start order. */
  lemma {:induction false} StopEvidenceAt(o: seq<Id>, stopFails: set<Id>, i: nat)
    requires i < |o|
    ensures |StopEvidence(o, stopFails)| == 2 * |o|
    ensures var id := o[|o| - 1 - i];
            && StopEvidence(o, stopFails)[2 * i] == Evidence(id, Stopping)
            && StopEvidence(o, stopFails)[2 * i + 1] == Evidence(id, if id in stopFails then Failed else Stopped)
  {
    var n := |o| - 1;
    if n > 0 { StopEvidenceAt(o[..n], stopFails, if i > 0 then i - 1 else 0); }
  }
}
