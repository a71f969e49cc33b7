/** Write-once publication of an evidence file by concurrent publishers. */
module WriteOnce {
  import opened Options

  type Bytes = string

  /** Where a publisher is: it checks the target, writes a private temporary file and
      links it without replacing. */
  datatype Step = Checking | Comparing | Writing | Linking | Rechecking
                | Succeeded | Conflicted | Crashed

  datatype Publisher = Publisher(payload: Bytes, temporary: Bytes, step: Step)

  /** `winner` is history: whose link made the target visible. */
  datatype System = System(target: Option<Bytes>, publishers: map<nat, Publisher>, winner: Option<nat>)

  datatype Action = Enter(id: nat, payload: Bytes) | Advance(id: nat, chunk: nat) | Crash(id: nat)

  const INITIAL: System := System(None, map[], None)

  function Outcome(s: System, p: Publisher): Step {
    if s.target == Some(p.payload) then Succeeded else Conflicted
  }

  /** One step of publisher `id`; a write puts `chunk` more bytes into its file. */
  function AdvanceOne(s: System, id: nat, chunk: nat): System
    requires id in s.publishers
  {
    var p := s.publishers[id];
    var next :=
      match p.step
      case Checking => if s.target.Some? then Comparing else Writing
      case Comparing => Outcome(s, p)
      case Writing => if |p.temporary| + chunk < |p.payload| then Writing else Linking
      case Linking => if s.target.None? then Succeeded else Rechecking
      case Rechecking => Outcome(s, p)
      case done => done;
    var moved := s.(publishers := s.publishers[id := p.(step := next, temporary := AfterWrite(p, chunk))]);
    if p.step.Linking? && s.target.None?
    then moved.(target := Some(p.temporary), winner := Some(id)) else moved
  }

  /** The temporary file once `chunk` more bytes of the payload are in it. */
  function AfterWrite(p: Publisher, chunk: nat): Bytes {
    if !p.step.Writing? || |p.temporary| > |p.payload| then p.temporary
    else
      var n := |p.temporary| + chunk;
      p.temporary + p.payload[|p.temporary|..if n < |p.payload| then n else |p.payload|]
  }

  function Apply(s: System, a: Action): System {
    match a
    case Enter(id, payload) =>
      if id in s.publishers then s else s.(publishers := s.publishers[id := Publisher(payload, "", Checking)])
    case Advance(id, chunk) => if id in s.publishers then AdvanceOne(s, id, chunk) else s
    case Crash(id) =>
      if id in s.publishers && !s.publishers[id].step.Succeeded? && !s.publishers[id].step.Conflicted?
      then s.(publishers := s.publishers[id := s.publishers[id].(step := Crashed)]) else s
  }

  function Run(s: System, actions: seq<Action>): System {
    if actions == [] then s else Apply(Run(s, actions[..|actions| - 1]), actions[|actions| - 1])
  }

  ghost predicate PublisherSound(s: System, p: Publisher) {
    && p.temporary <= p.payload
    && (p.step.Linking? ==> p.temporary == p.payload)
    && (p.step.Comparing? || p.step.Rechecking? || p.step.Conflicted? || p.step.Succeeded? ==> s.target.Some?)
    && (p.step.Succeeded? ==> s.target == Some(p.payload))
    && (p.step.Conflicted? ==> s.target != Some(p.payload))
  }

  ghost predicate Published(s: System, id: nat) {
    && id in s.publishers && s.publishers[id].step.Succeeded?
    && s.target == Some(s.publishers[id].payload)
  }

  ghost predicate Inv(s: System) {
    && (forall id | id in s.publishers :: PublisherSound(s, s.publishers[id]))
    && (s.target.Some? <==> s.winner.Some?)
    && (s.winner.Some? ==> Published(s, s.winner.value))
  }

  /** Nothing that a publisher was promised is lost when another one moves. */
  ghost predicate Extends(s: System, after: System) {
    && (s.target.Some? ==> after.target == s.target)
    && forall id | id in s.publishers :: id in after.publishers && MovesOn(s.publishers[id], after.publishers[id])
  }

  predicate MovesOn(before: Publisher, after: Publisher) {
    && after.payload == before.payload
    && (before.step.Succeeded? || before.step.Conflicted? ==> after == before)
  }

  lemma MovedSound(s: System, id: nat, chunk: nat)
    requires Inv(s) && id in s.publishers
    ensures var after := AdvanceOne(s, id, chunk);
            && PublisherSound(after, after.publishers[id]) && MovesOn(s.publishers[id], after.publishers[id])
            && (s.target.Some? ==> after.target == s.target)
            && (s.target.None? && after.target.Some? ==> after.winner == Some(id) && Published(after, id))
  {
    assert PublisherSound(s, s.publishers[id]);
  }

  lemma OthersSound(s: System, p: Publisher, after: System)
    requires PublisherSound(s, p) && (s.target.Some? ==> after.target == s.target)
    requires s.target.None? ==> !p.step.Conflicted?
    ensures PublisherSound(after, p)
  {
  }

  lemma AdvanceKeeps(s: System, id: nat, chunk: nat)
    requires Inv(s) && id in s.publishers
    ensures Inv(AdvanceOne(s, id, chunk)) && Extends(s, AdvanceOne(s, id, chunk))
  {
    var after := AdvanceOne(s, id, chunk);
    MovedSound(s, id, chunk);
    forall i | i in after.publishers ensures PublisherSound(after, after.publishers[i]) {
      if i != id { OthersSound(s, s.publishers[i], after); }
    }
  }

  lemma ApplyKeeps(s: System, a: Action)
    requires Inv(s)
    ensures Inv(Apply(s, a)) && Extends(s, Apply(s, a))
  {
    if a.Advance? && a.id in s.publishers { AdvanceKeeps(s, a.id, a.chunk); }
  }

  lemma {:induction false} RunKeeps(s: System, actions: seq<Action>)
    requires Inv(s)
    ensures Inv(Run(s, actions)) && Extends(s, Run(s, actions))
  {
    if actions != [] {
      RunKeeps(s, actions[..|actions| - 1]);
      ApplyKeeps(Run(s, actions[..|actions| - 1]), actions[|actions| - 1]);
    }
  }

  /** Whatever the interleaving and the crashes: once visible the target never changes
      again, and it is one publisher's whole payload. */
  lemma TargetIsForever(before: seq<Action>, after: seq<Action>)
    requires Run(INITIAL, before).target.Some?
    ensures var s := Run(INITIAL, before);
            && Run(s, after).target == s.target
            && exists id :: id in s.publishers && s.target == Some(s.publishers[id].payload)
  {
    RunKeeps(INITIAL, before);
    RunKeeps(Run(INITIAL, before), after);
    var s := Run(INITIAL, before);
    assert s.winner.value in s.publishers;
  }

  /** Every publisher that returned, ever, was told the truth about the final target:
      success exactly when the target is its own payload. */
  lemma OutcomesAgree(actions: seq<Action>, id: nat)
    requires var s := Run(INITIAL, actions);
             id in s.publishers && (s.publishers[id].step.Succeeded? || s.publishers[id].step.Conflicted?)
    ensures var s := Run(INITIAL, actions);
            && s.target.Some?
            && (s.publishers[id].step.Succeeded? <==> s.target == Some(s.publishers[id].payload))
  {
    RunKeeps(INITIAL, actions);
    assert PublisherSound(Run(INITIAL, actions), Run(INITIAL, actions).publishers[id]);
  }

  /** Two publishers that both succeeded proposed the same bytes. */
  lemma SuccessesAgree(actions: seq<Action>, i: nat, j: nat)
    requires var s := Run(INITIAL, actions);
             && i in s.publishers && j in s.publishers
             && s.publishers[i].step.Succeeded? && s.publishers[j].step.Succeeded?
    ensures Run(INITIAL, actions).publishers[i].payload == Run(INITIAL, actions).publishers[j].payload
  {
    OutcomesAgree(actions, i);
    OutcomesAgree(actions, j);
  }

  /** Steps left for a publisher that keeps being scheduled, each write moving on. */
  ghost function StepsLeft(p: Publisher): nat {
    match p.step
    case Checking => |p.payload| + 5
    case Writing => if |p.temporary| <= |p.payload| then |p.payload| - |p.temporary| + 3 else 3
    case Linking => 2
    case Comparing | Rechecking => 1
    case _ => 0
  }

  /** Publishing is wait-free: each step of a publisher brings it closer to returning,
      whatever the others do. */
  lemma PublisherProgress(actions: seq<Action>, id: nat, chunk: nat)
    requires id in Run(INITIAL, actions).publishers && chunk > 0
    requires StepsLeft(Run(INITIAL, actions).publishers[id]) > 0
    ensures var s := Run(INITIAL, actions);
            StepsLeft(Apply(s, Advance(id, chunk)).publishers[id]) < StepsLeft(s.publishers[id])
  {
    RunKeeps(INITIAL, actions);
    assert PublisherSound(Run(INITIAL, actions), Run(INITIAL, actions).publishers[id]);
  }

  // ---- Publishers get there ----

  predicate Returned(p: Publisher) {
    p.step.Succeeded? || p.step.Conflicted?
  }

  /** Schedules one publisher `n` times, a byte at a time. */
  function Alone(id: nat, n: nat): seq<Action> {
    if n == 0 then [] else [Advance(id, 1)] + Alone(id, n - 1)
  }

  lemma {:induction false} RunCons(s: System, a: Action, more: seq<Action>)
    ensures Run(s, [a] + more) == Run(Apply(s, a), more)
  {
    if more == [] {
      assert [a] + more == [a] && [a][..0] == [];
    } else {
      RunCons(s, a, more[..|more| - 1]);
      assert ([a] + more)[..|more|] == [a] + more[..|more| - 1];
    }
  }

  /** Where one more step of a publisher leads. */
  lemma StepOfOne(s: System, id: nat)
    requires Inv(s) && id in s.publishers && !s.publishers[id].step.Crashed? && !Returned(s.publishers[id])
    ensures var after := AdvanceOne(s, id, 1);
            && Inv(after) && id in after.publishers && after.publishers[id].payload == s.publishers[id].payload
            && !after.publishers[id].step.Crashed?
            && StepsLeft(after.publishers[id]) < StepsLeft(s.publishers[id])
            && (s.target.None? ==> after.target.None? || after.target == Some(s.publishers[id].payload))
  {
    AdvanceKeeps(s, id, 1);
    assert PublisherSound(s, s.publishers[id]);
  }

  /** A publisher that is scheduled returns, whatever the others did before; if nothing was
      published till then, what it publishes is its own payload, with success. */
  lemma {:induction false} PublisherReturns(s: System, id: nat) returns (n: nat)
    requires Inv(s) && id in s.publishers && !s.publishers[id].step.Crashed?
    ensures var after := Run(s, Alone(id, n));
            && id in after.publishers && Returned(after.publishers[id])
            && after.publishers[id].payload == s.publishers[id].payload
            && after.target == (if s.target.Some? then s.target else Some(s.publishers[id].payload))
            && (after.publishers[id].step.Succeeded? <==> after.target == Some(s.publishers[id].payload))
    decreases StepsLeft(s.publishers[id])
  {
    if Returned(s.publishers[id]) {
      n := 0;
      assert PublisherSound(s, s.publishers[id]);
    } else {
      StepOfOne(s, id);
      AdvanceKeeps(s, id, 1);
      var rest := PublisherReturns(AdvanceOne(s, id, 1), id);
      n := rest + 1;
      RunCons(s, Advance(id, 1), Alone(id, rest));
    }
  }

  /** A new publisher starts with the payload it was given and nothing written. */
  lemma EnteredPayload(s: System, id: nat, payload: Bytes)
    requires id !in s.publishers
    ensures Apply(s, Enter(id, payload)) == s.(publishers := s.publishers[id := Publisher(payload, "", Checking)])
  {
  }

  ghost predicate Entered(actions: seq<Action>, id: nat, payload: Bytes) {
    exists n :: 0 <= n < |actions| && actions[n] == Enter(id, payload)
  }

  /** No publisher ever has another payload than it entered with. */
  lemma {:induction false} PayloadsWereEntered(actions: seq<Action>, id: nat)
    requires id in Run(INITIAL, actions).publishers
    ensures Entered(actions, id, Run(INITIAL, actions).publishers[id].payload)
  {
    var front, a := actions[..|actions| - 1], actions[|actions| - 1];
    if id in Run(INITIAL, front).publishers {
      PayloadsWereEntered(front, id);
      var payload := Run(INITIAL, front).publishers[id].payload;
      var n :| 0 <= n < |front| && front[n] == Enter(id, payload);
      assert actions[n] == Enter(id, payload);
    } else {
      assert actions[|front|] == a;
    }
  }

  /** What is published was proposed: the target is the payload of a publisher that
      entered with it. */
  lemma TargetWasProposed(actions: seq<Action>)
    requires Run(INITIAL, actions).target.Some?
    ensures exists id :: Entered(actions, id, Run(INITIAL, actions).target.value)
  {
    RunKeeps(INITIAL, actions);
    var s := Run(INITIAL, actions);
    PayloadsWereEntered(actions, s.winner.value);
  }

  /** A publisher that has written nothing and will not: it checks or compares, or is done. */
  predicate Spared(s: System, id: nat) {
    && s.target.Some? && id in s.publishers && s.publishers[id].temporary == ""
    && !s.publishers[id].step.Writing? && !s.publishers[id].step.Linking? && !s.publishers[id].step.Rechecking?
  }

  lemma StepSpares(s: System, a: Action, id: nat)
    requires Spared(s, id)
    ensures Spared(Apply(s, a), id)
  {
  }

  /** A publisher that comes to a published target never writes anything. */
  lemma {:induction false} LatePublisherWritesNothing(s: System, actions: seq<Action>, id: nat)
    requires s.target.Some? && id in s.publishers
    requires s.publishers[id].step == Checking && s.publishers[id].temporary == ""
    ensures Spared(Run(s, actions), id)
  {
    if actions != [] {
      LatePublisherWritesNothing(s, actions[..|actions| - 1], id);
      StepSpares(Run(s, actions[..|actions| - 1]), actions[|actions| - 1], id);
    }
  }
}
