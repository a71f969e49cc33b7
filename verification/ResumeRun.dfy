/** Runs of the resume index, with raising writes, crashes and reopenings. */
module ResumeRun {
  import opened Options
  import opened PythonText
  import opened ResumeIndex

  type Handle = nat

  /** A state and the identity of the study it belongs to. */
  datatype Held = Held(identity: Identity, state: State)

  /** Indexes on one output directory: opened with any path or none and under any
      identity, and gone at any time. */
  datatype Event =
    | Opened(handle: Handle, identity: Identity, path: Option<File>)
    | Persisted(handle: Handle, fate: Fate)
    | CutPublished(handle: Handle, repetition: int, cut: WorldCut, fate: Fate)
    | CheckpointPublished(handle: Handle, manifest: Manifest, fate: Fate)
    | Gone(handle: Handle)

  datatype System = System(disk: Option<Document>, running: map<Handle, Held>)

  /** What a running index would commit. */
  function Candidate(m: Held, e: Event): Option<State> {
    match e
    case Persisted(_, _) => Some(m.state)
    case CutPublished(_, n, cut, _) => CandidateCut(m.identity, m.state, n, cut)
    case CheckpointPublished(_, manifest, _) => CandidateCheckpoint(m.identity, m.state, manifest)
    case _ => None
  }

  function FateOf(e: Event): Fate {
    if e.Opened? || e.Gone? then Completes else e.fate
  }

  /** One event on the durable document and the memories. */
  ghost function Apply(s: System, e: Event): System {
    match e
    case Opened(h, identity, path) =>
      if h in s.running || Loaded(identity, path).None? then s
      else s.(running := s.running[h := Held(identity, Loaded(identity, path).value)])
    case Gone(h) => s.(running := s.running - {h})
    case _ =>
      if e.handle !in s.running then s
      else
        var m := s.running[e.handle];
        var after := Publish(m.identity, World(s.disk, Some(m.state)), Candidate(m, e), FateOf(e));
        System(after.disk, s.running[e.handle := m.(state := after.memory.value)])
  }

  ghost function Run(events: seq<Event>): System {
    if events == [] then System(None, map[])
    else Apply(Run(events[..|events| - 1]), events[|events| - 1])
  }

  // ---- The same runs with the document's state in place of the document ----

  datatype Book = Book(disk: Option<Held>, running: map<Handle, Held>)

  const START := Book(None, map[])

  ghost function Step(b: Book, e: Event): Book {
    match e
    case Opened(h, identity, path) =>
      if h in b.running || Loaded(identity, path).None? then b
      else b.(running := b.running[h := Held(identity, Loaded(identity, path).value)])
    case Gone(h) => b.(running := b.running - {h})
    case _ =>
      if e.handle !in b.running || Candidate(b.running[e.handle], e).None? then b
      else
        var after := b.running[e.handle].(state := Candidate(b.running[e.handle], e).value);
        Book(if FateOf(e).RaisesBefore? then b.disk else Some(after),
             if FateOf(e).Completes? then b.running[e.handle := after] else b.running)
  }

  ghost function Steps(b: Book, events: seq<Event>): Book {
    if events == [] then b
    else Step(Steps(b, events[..|events| - 1]), events[|events| - 1])
  }

  lemma StepsSnoc(b: Book, events: seq<Event>, e: Event)
    ensures Steps(b, events + [e]) == Step(Steps(b, events), e)
  {
    assert (events + [e])[..|events|] == events;
  }

  ghost function Printed(b: Book): System {
    System(if b.disk.Some? then Some(Encode(b.disk.value.identity, b.disk.value.state)) else None, b.running)
  }

  lemma StepPrints(b: Book, e: Event)
    ensures Apply(Printed(b), e) == Printed(Step(b, e))
  {
    if !e.Opened? && !e.Gone? && e.handle in b.running {
      var m := b.running[e.handle];
      assert b.running[e.handle := m.(state := m.state)] == b.running;
    }
  }

  /** Every document of a run, however its indexes are opened, is the printed durable
      state. */
  lemma {:induction false} RunsPrintTheirStates(events: seq<Event>)
    ensures Run(events) == Printed(Steps(START, events))
  {
    if events != [] {
      var front, e := events[..|events| - 1], events[|events| - 1];
      RunsPrintTheirStates(front);
      StepPrints(Steps(START, front), e);
    }
  }

  // ---- What every run keeps ----

  ghost predicate AllJoined(b: Book) {
    && (b.disk.Some? ==> Joined(b.disk.value.identity, b.disk.value.state))
    && forall h | h in b.running :: Joined(b.running[h].identity, b.running[h].state)
  }

  lemma CandidateIsJoined(m: Held, e: Event)
    requires Joined(m.identity, m.state) && Candidate(m, e).Some?
    ensures Joined(m.identity, Candidate(m, e).value)
  {
    var after := Candidate(m, e).value;
    forall b | b in after.checkpoints ensures !Blank(after.checkpoints[b]) && HasCut(m.identity, after.cuts, b) {
      if b in m.state.checkpoints { assert HasCut(m.identity, m.state.cuts, b); }
    }
  }

  lemma LoadedIsJoined(identity: Identity, path: Option<File>)
    requires Loaded(identity, path).Some?
    ensures Joined(identity, Loaded(identity, path).value)
  {
  }

  lemma StepJoins(b: Book, e: Event)
    requires AllJoined(b)
    ensures AllJoined(Step(b, e))
  {
    if e.Opened? {
      if Loaded(e.identity, e.path).Some? { LoadedIsJoined(e.identity, e.path); }
    } else if !e.Gone? && e.handle in b.running && Candidate(b.running[e.handle], e).Some? {
      CandidateIsJoined(b.running[e.handle], e);
    }
  }

  /** In every run, whatever files are opened, each pointer in memory or in the document
      has the cut of its repetition beside it. */
  lemma {:induction false} PointersAlwaysHaveCuts(b: Book, events: seq<Event>)
    requires AllJoined(b)
    ensures AllJoined(Steps(b, events))
  {
    if events != [] {
      PointersAlwaysHaveCuts(b, events[..|events| - 1]);
      StepJoins(Steps(b, events[..|events| - 1]), events[|events| - 1]);
    }
  }

  // ---- When a durable cut is lost ----

  predicate Has(m: Held, identity: Identity, n: nat, cut: WorldCut) {
    m.identity == identity && n in m.state.cuts && m.state.cuts[n] == cut
  }

  predicate OnDisk(b: Book, identity: Identity, n: nat, cut: WorldCut) {
    b.disk.Some? && Has(b.disk.value, identity, n, cut)
  }

  /** The publications that replace the document. */
  predicate Replaces(b: Book, e: Event) {
    && !e.Opened? && !e.Gone? && e.handle in b.running
    && Candidate(b.running[e.handle], e).Some? && !FateOf(e).RaisesBefore?
  }

  /** An index without the cut in memory publishes something else. */
  predicate Loses(b: Book, e: Event, identity: Identity, n: nat, cut: WorldCut) {
    && Replaces(b, e) && !Has(b.running[e.handle], identity, n, cut)
    && !(b.running[e.handle].identity == identity && e.CutPublished? && e.repetition == n && e.cut == cut)
  }

  lemma LosesExactly(b: Book, e: Event, identity: Identity, n: nat, cut: WorldCut)
    requires OnDisk(b, identity, n, cut)
    ensures OnDisk(Step(b, e), identity, n, cut) <==> !Loses(b, e, identity, n, cut)
  {
  }

  ghost predicate StaysOnDisk(b: Book, events: seq<Event>, identity: Identity, n: nat, cut: WorldCut) {
    && OnDisk(Steps(b, events), identity, n, cut)
    && (events != [] ==> StaysOnDisk(b, events[..|events| - 1], identity, n, cut))
  }

  ghost predicate NothingLoses(b: Book, events: seq<Event>, identity: Identity, n: nat, cut: WorldCut) {
    events == [] ||
    var front := events[..|events| - 1];
    NothingLoses(b, front, identity, n, cut) && !Loses(Steps(b, front), events[|events| - 1], identity, n, cut)
  }

  /** Over any run at all, with any number of indexes opened in any way, a durable cut
      stays in the document exactly as long as no index without it publishes. */
  lemma {:induction false} CutStaysExactly(b: Book, events: seq<Event>, identity: Identity, n: nat, cut: WorldCut)
    requires OnDisk(b, identity, n, cut)
    ensures StaysOnDisk(b, events, identity, n, cut) <==> NothingLoses(b, events, identity, n, cut)
  {
    if events != [] {
      var front := events[..|events| - 1];
      CutStaysExactly(b, front, identity, n, cut);
      if NothingLoses(b, front, identity, n, cut) {
        assert OnDisk(Steps(b, front), identity, n, cut);
        LosesExactly(Steps(b, front), events[|events| - 1], identity, n, cut);
      }
    }
  }

  // ---- Opening the right file ----

  /** The file of the output directory; one that is missing cannot be read. */
  function DocumentFile(disk: Option<Held>): File {
    if disk.Some? then Parsed(Encode(disk.value.identity, disk.value.state)) else Malformed
  }

  /** A path is given whenever there is a document, and it names that document. */
  predicate NamesDocument(disk: Option<Held>, path: Option<File>) {
    if path.None? then disk.None? else path.value == DocumentFile(disk)
  }

  predicate OpensDocument(b: Book, e: Event) {
    e.Opened? ==> NamesDocument(b.disk, e.path)
  }

  ghost predicate OpeningDocuments(b: Book, events: seq<Event>) {
    events == [] ||
    var front := events[..|events| - 1];
    OpeningDocuments(b, front) && OpensDocument(Steps(b, front), events[|events| - 1])
  }

  lemma DocumentLoads(d: Held, identity: Identity)
    requires Joined(d.identity, d.state)
    ensures Loaded(identity, Some(DocumentFile(Some(d)))) == if identity == d.identity then Some(d.state) else None
  {
    ReopenGivesBack(d.identity, d.state);
  }

  /** Such an open gives back the durable state, and is refused to another study. */
  lemma OpenGivesDurable(disk: Option<Held>, identity: Identity, path: Option<File>)
    requires disk.Some? ==> Joined(disk.value.identity, disk.value.state)
    requires NamesDocument(disk, path) && Loaded(identity, path).Some?
    ensures Loaded(identity, path).value == if disk.None? then EMPTY else disk.value.state
    ensures disk.Some? ==> disk.value.identity == identity
  {
    if disk.Some? { DocumentLoads(disk.value, identity); }
  }

  ghost predicate Frozen(b: Book, identity: Identity, n: nat, cut: WorldCut) {
    OnDisk(b, identity, n, cut) && forall h | h in b.running :: Has(b.running[h], identity, n, cut)
  }

  lemma CandidateHas(m: Held, e: Event, identity: Identity, n: nat, cut: WorldCut)
    requires Has(m, identity, n, cut) && Candidate(m, e).Some?
    ensures Has(m.(state := Candidate(m, e).value), identity, n, cut)
  {
  }

  lemma FrozenStep(b: Book, e: Event, identity: Identity, n: nat, cut: WorldCut)
    requires AllJoined(b) && Frozen(b, identity, n, cut) && OpensDocument(b, e)
    ensures Frozen(Step(b, e), identity, n, cut)
  {
    if e.Opened? {
      FrozenOpen(b, e, identity, n, cut);
    } else if !e.Gone? {
      FrozenPublication(b, e, identity, n, cut);
    }
  }

  lemma FrozenOpen(b: Book, e: Event, identity: Identity, n: nat, cut: WorldCut)
    requires AllJoined(b) && Frozen(b, identity, n, cut) && e.Opened? && OpensDocument(b, e)
    ensures Frozen(Step(b, e), identity, n, cut)
  {
    if Loaded(e.identity, e.path).Some? {
      OpenGivesDurable(b.disk, e.identity, e.path);
      FrozenAdds(b, e.handle, Held(e.identity, Loaded(e.identity, e.path).value), identity, n, cut);
    }
  }

  lemma FrozenAdds(b: Book, h: Handle, m: Held, identity: Identity, n: nat, cut: WorldCut)
    requires Frozen(b, identity, n, cut) && Has(m, identity, n, cut)
    ensures Frozen(b.(running := b.running[h := m]), identity, n, cut)
  {
  }

  lemma FrozenPublication(b: Book, e: Event, identity: Identity, n: nat, cut: WorldCut)
    requires Frozen(b, identity, n, cut) && !e.Opened? && !e.Gone?
    ensures Frozen(Step(b, e), identity, n, cut)
  {
    if e.handle in b.running && Candidate(b.running[e.handle], e).Some? {
      CandidateHas(b.running[e.handle], e, identity, n, cut);
    }
  }

  lemma {:induction false} FrozenRun(b: Book, more: seq<Event>, identity: Identity, n: nat, cut: WorldCut)
    requires AllJoined(b) && Frozen(b, identity, n, cut) && OpeningDocuments(b, more)
    ensures Frozen(Steps(b, more), identity, n, cut)
  {
    if more != [] {
      var front := more[..|more| - 1];
      FrozenRun(b, front, identity, n, cut);
      PointersAlwaysHaveCuts(b, front);
      FrozenStep(Steps(b, front), more[|more| - 1], identity, n, cut);
    }
  }

  /** While indexes open the document, a durable cut stays for ever exactly when every
      running index has it in memory: one whose write raised, or whose index was opened
      before another published it, may be replaced. */
  lemma DurableCutStaysExactly(b: Book, identity: Identity, n: nat, cut: WorldCut)
    requires AllJoined(b) && OnDisk(b, identity, n, cut)
    ensures (forall more | OpeningDocuments(b, more) :: OnDisk(Steps(b, more), identity, n, cut)) <==>
            forall h | h in b.running :: Has(b.running[h], identity, n, cut)
  {
    if forall h | h in b.running :: Has(b.running[h], identity, n, cut) {
      forall more | OpeningDocuments(b, more) ensures OnDisk(Steps(b, more), identity, n, cut) {
        FrozenRun(b, more, identity, n, cut);
      }
    } else {
      var h :| h in b.running && !Has(b.running[h], identity, n, cut);
      LosesByPersisting(b, h);
      var more := [Persisted(h, Completes)];
      assert OpeningDocuments(b, more) && !OnDisk(Steps(b, more), identity, n, cut);
    }
  }

  lemma LosesByPersisting(b: Book, h: Handle)
    requires h in b.running
    ensures OpeningDocuments(b, [Persisted(h, Completes)])
    ensures Steps(b, [Persisted(h, Completes)]).disk == Some(b.running[h])
  {
    assert [Persisted(h, Completes)][..0] == [];
    assert Steps(b, []) == b && OpeningDocuments(b, []);
  }

  /** Without that rule no cut is safe: over any document an index that is opened without
      a path and persisted leaves a document without cuts. */
  lemma OpenWithoutPathLoses(b: Book, identity: Identity, h: Handle)
    requires h !in b.running
    ensures var after := Steps(b, [Opened(h, identity, None)] + [Persisted(h, Completes)]);
            after.disk == Some(Held(identity, EMPTY))
  {
    StepsSnoc(b, [], Opened(h, identity, None));
    StepsSnoc(b, [Opened(h, identity, None)], Persisted(h, Completes));
    assert [] + [Opened(h, identity, None)] == [Opened(h, identity, None)];
  }

  // ---- One index at a time ----

  /** An index is opened only when no other runs. */
  predicate OpensAlone(b: Book, e: Event) {
    e.Opened? ==> b.running == map[]
  }

  ghost predicate Careful(b: Book, events: seq<Event>) {
    events == [] ||
    var front := events[..|events| - 1];
    && Careful(b, front) && OpensDocument(Steps(b, front), events[|events| - 1])
    && OpensAlone(Steps(b, front), events[|events| - 1])
  }

  /** The durable state is that of the index, or one accepted publication further. */
  ghost predicate Behind(m: Held, disk: Option<Held>) {
    match disk
    case None => m.state == EMPTY
    case Some(d) => d.identity == m.identity && exists e :: Candidate(m, e) == Some(d.state)
  }

  ghost predicate Sound(b: Book) {
    && AllJoined(b)
    && (forall h, k | h in b.running && k in b.running :: h == k)
    && forall h | h in b.running :: Behind(b.running[h], b.disk)
  }

  lemma BehindItself(m: Held)
    ensures Behind(m, Some(m))
  {
    assert Candidate(m, Persisted(0, Completes)) == Some(m.state);
  }

  lemma CarefulStep(b: Book, e: Event)
    requires Sound(b) && OpensDocument(b, e) && OpensAlone(b, e)
    ensures Sound(Step(b, e))
  {
    StepJoins(b, e);
    if e.Opened? {
      if Loaded(e.identity, e.path).Some? {
        OpenGivesDurable(b.disk, e.identity, e.path);
        BehindItself(Held(e.identity, Loaded(e.identity, e.path).value));
      }
    } else if Replaces(b, e) {
      BehindItself(b.running[e.handle].(state := Candidate(b.running[e.handle], e).value));
    }
  }

  /** Memory is never ahead of the document: over any run of one index at a time, each
      opening the document, it is the durable state or lacks only the last publication,
      whose write raised. */
  lemma {:induction false} NeverAhead(b: Book, events: seq<Event>)
    requires Sound(b) && Careful(b, events)
    ensures Sound(Steps(b, events))
  {
    if events != [] {
      NeverAhead(b, events[..|events| - 1]);
      CarefulStep(Steps(b, events[..|events| - 1]), events[|events| - 1]);
    }
  }

  /** The study a document belongs to never changes in such a run. */
  lemma {:induction false} StudyNeverChanges(b: Book, more: seq<Event>)
    requires Sound(b) && b.disk.Some? && Careful(b, more)
    ensures Steps(b, more).disk.Some? && Steps(b, more).disk.value.identity == b.disk.value.identity
  {
    if more != [] {
      StudyNeverChanges(b, more[..|more| - 1]);
      NeverAhead(b, more[..|more| - 1]);
    }
  }

  lemma BehindHasCuts(m: Held, d: Held, n: nat)
    requires Behind(m, Some(d)) && n in m.state.cuts
    ensures Has(d, m.identity, n, m.state.cuts[n])
  {
  }

  /** After a run of one index at a time, a source cut in memory, that is one whose
      publication returned or that a reopened index found, never changes again while
      indexes open the document. */
  lemma CommittedCutNeverChanges(events: seq<Event>, more: seq<Event>, h: Handle, n: nat)
    requires Careful(START, events) && OpeningDocuments(Steps(START, events), more)
    requires h in Steps(START, events).running && n in Steps(START, events).running[h].state.cuts
    ensures var m := Steps(START, events).running[h];
            Frozen(Steps(Steps(START, events), more), m.identity, n, m.state.cuts[n])
  {
    var b := Steps(START, events);
    NeverAhead(START, events);
    assert Behind(b.running[h], b.disk);
    BehindHasCuts(b.running[h], b.disk.value, n);
    FrozenRun(b, more, b.running[h].identity, n, b.running[h].state.cuts[n]);
  }

  /** A publication that completes is in memory and in the document. */
  lemma PublishedIsHeld(b: Book, h: Handle, m: Manifest)
    requires h in b.running && CandidateCheckpoint(b.running[h].identity, b.running[h].state, m).Some?
    ensures var after := Step(b, CheckpointPublished(h, m, Completes));
            && h in after.running && after.disk == Some(after.running[h])
            && m.branchId in after.running[h].state.checkpoints
            && after.running[h].state.checkpoints[m.branchId] == m.checkpointId
            && after.running[h].identity == b.running[h].identity
  {
    CheckpointAcceptedExactly(b.running[h].identity, b.running[h].state, m);
  }

  lemma CutIsHeld(b: Book, h: Handle, n: nat, cut: WorldCut)
    requires h in b.running && CandidateCut(b.running[h].identity, b.running[h].state, n, cut).Some?
    ensures var after := Step(b, CutPublished(h, n, cut, Completes));
            && h in after.running && after.disk == Some(after.running[h])
            && Has(after.running[h], b.running[h].identity, n, cut)
  {
    CutAcceptedExactly(b.running[h].identity, b.running[h].state, n, cut);
  }

  // ---- The failing inputs ----

  lemma CarefulSnoc(b: Book, events: seq<Event>, e: Event)
    requires Careful(b, events) && OpensDocument(Steps(b, events), e) && OpensAlone(Steps(b, events), e)
    ensures Careful(b, events + [e])
  {
    assert (events + [e])[..|events|] == events;
  }

  lemma OpeningSnoc(b: Book, events: seq<Event>, e: Event)
    requires OpeningDocuments(b, events) && OpensDocument(Steps(b, events), e)
    ensures OpeningDocuments(b, events + [e])
  {
    assert (events + [e])[..|events|] == events;
  }

  lemma OpensEmpty(b: Book, h: Handle, identity: Identity)
    requires h !in b.running
    ensures Step(b, Opened(h, identity, None)) == b.(running := b.running[h := Held(identity, EMPTY)])
  {
  }

  function OneCut(identity: Identity, n: nat, cut: WorldCut): Held {
    Held(identity, State(map[n := cut], map[]))
  }

  lemma FirstCut(b: Book, h: Handle, identity: Identity, n: nat, cut: WorldCut, fate: Fate)
    requires h in b.running && b.running[h] == Held(identity, EMPTY) && n < identity.repetitions
    ensures Step(b, CutPublished(h, n, cut, fate)) ==
            Book(if fate.RaisesBefore? then b.disk else Some(OneCut(identity, n, cut)),
                 if fate.Completes? then b.running[h := OneCut(identity, n, cut)] else b.running)
  {
  }

  /** A first index, opened without a path and publishing a cut. */
  function FirstRun(identity: Identity, cut: WorldCut, fate: Fate): seq<Event> {
    [Opened(0, identity, None)] + [CutPublished(0, 0, cut, fate)]
  }

  lemma FirstRunSteps(identity: Identity, cut: WorldCut, fate: Fate)
    requires identity.repetitions > 0 && !fate.RaisesBefore?
    ensures Careful(START, FirstRun(identity, cut, fate))
    ensures Steps(START, FirstRun(identity, cut, fate)) ==
            Book(Some(OneCut(identity, 0, cut)),
                 map[0 := if fate.Completes? then OneCut(identity, 0, cut) else Held(identity, EMPTY)])
  {
    var open, e := Opened(0, identity, None), CutPublished(0, 0, cut, fate);
    StepsSnoc(START, [], open);
    StepsSnoc(START, [open], e);
    CarefulSnoc(START, [], open);
    CarefulSnoc(START, [open], e);
    assert [] + [open] == [open];
    OpensEmpty(START, 0, identity);
    FirstCut(Steps(START, [open]), 0, identity, 0, cut, fate);
  }

  /** The write of a first cut raises after the document is durable, memory lacks it, and
      a retry with another cut replaces it. */
  lemma RaisedCutIsReplaced(identity: Identity, first: WorldCut, second: WorldCut)
    requires identity.repetitions > 0
    ensures var run, retry := FirstRun(identity, first, RaisesAfter), CutPublished(0, 0, second, Completes);
            && Careful(START, run + [retry]) && OnDisk(Steps(START, run), identity, 0, first)
            && OnDisk(Steps(START, run + [retry]), identity, 0, second)
  {
    var run, retry := FirstRun(identity, first, RaisesAfter), CutPublished(0, 0, second, Completes);
    FirstRunSteps(identity, first, RaisesAfter);
    CarefulSnoc(START, run, retry);
    StepsSnoc(START, run, retry);
    FirstCut(Steps(START, run), 0, identity, 0, second, Completes);
  }

  /** What a process does that starts over without a path, in the same study or another. */
  function Rerun(identity: Identity, cut: WorldCut): seq<Event> {
    [Gone(0)] + [Opened(0, identity, None)] + [CutPublished(0, 0, cut, Completes)]
  }

  lemma RerunSteps(b: Book, identity: Identity, cut: WorldCut)
    requires identity.repetitions > 0
    ensures Steps(b, Rerun(identity, cut)).disk == Some(OneCut(identity, 0, cut))
    ensures 0 in Steps(b, Rerun(identity, cut)).running
    ensures Steps(b, Rerun(identity, cut)).running[0] == OneCut(identity, 0, cut)
  {
    var open := Opened(0, identity, None);
    StepsSnoc(b, [], Gone(0));
    StepsSnoc(b, [Gone(0)], open);
    StepsSnoc(b, [Gone(0)] + [open], CutPublished(0, 0, cut, Completes));
    assert [] + [Gone(0)] == [Gone(0)];
    OpensEmpty(Steps(b, [Gone(0)]), 0, identity);
    FirstCut(Steps(b, [Gone(0)] + [open]), 0, identity, 0, cut, Completes);
  }

  /** A committed cut of a careful run is replaced by a rerun without a path. */
  lemma RerunReplacesCut(identity: Identity, first: WorldCut, other: Identity, second: WorldCut)
    requires identity.repetitions > 0 && other.repetitions > 0
    ensures var committed := Steps(START, FirstRun(identity, first, Completes));
            && Careful(START, FirstRun(identity, first, Completes)) && Frozen(committed, identity, 0, first)
            && OnDisk(Steps(committed, Rerun(other, second)), other, 0, second)
  {
    FirstRunSteps(identity, first, Completes);
    RerunSteps(Steps(START, FirstRun(identity, first, Completes)), other, second);
  }

  /** Of two indexes opened before there is a document, the second to publish loses the
      cut that the first committed. */
  lemma SecondIndexLosesCut(identity: Identity, first: WorldCut, second: WorldCut)
    requires identity.repetitions > 1
    ensures var committed := [Opened(0, identity, None)] + [Opened(1, identity, None)]
                             + [CutPublished(0, 0, first, Completes)];
            var lost := committed + [CutPublished(1, 1, second, Completes)];
            && OpeningDocuments(START, lost) && 0 in Steps(START, committed).running
            && Has(Steps(START, committed).running[0], identity, 0, first)
            && OnDisk(Steps(START, committed), identity, 0, first) && !OnDisk(Steps(START, lost), identity, 0, first)
  {
    var one, two := Opened(0, identity, None), Opened(1, identity, None);
    var published, loses := CutPublished(0, 0, first, Completes), CutPublished(1, 1, second, Completes);
    assert [] + [one] == [one];
    StepsSnoc(START, [], one);
    OpensEmpty(START, 0, identity);
    StepsSnoc(START, [one], two);
    OpensEmpty(Steps(START, [one]), 1, identity);
    StepsSnoc(START, [one] + [two], published);
    FirstCut(Steps(START, [one] + [two]), 0, identity, 0, first, Completes);
    StepsSnoc(START, [one] + [two] + [published], loses);
    FirstCut(Steps(START, [one] + [two] + [published]), 1, identity, 1, second, Completes);
    OpeningSnoc(START, [], one);
    OpeningSnoc(START, [one], two);
    OpeningSnoc(START, [one] + [two], published);
    OpeningSnoc(START, [one] + [two] + [published], loses);
  }

  // ---- Every pointer was published for its cut ----

  /** The event published this pointer, for the cut its branch's repetition has. */
  predicate Backs(e: Event, branchId: string, m: Held)
    requires branchId in m.state.checkpoints
  {
    && e.CheckpointPublished? && e.manifest.branchId == branchId && ForIdentity(m.identity, e.manifest)
    && m.state.checkpoints[branchId] == e.manifest.checkpointId && CutMatches(m.identity, e.manifest, m.state)
  }

  predicate CutMatches(identity: Identity, m: Manifest, s: State) {
    && HasCut(identity, s.cuts, m.branchId)
    && s.cuts[BranchRepetition(identity, m.branchId).value].cutId == m.sourceCutId
  }

  ghost predicate Backed(events: seq<Event>, m: Held) {
    forall b | b in m.state.checkpoints :: exists i :: 0 <= i < |events| && Backs(events[i], b, m)
  }

  ghost predicate AllBacked(events: seq<Event>, b: Book) {
    && (b.disk.Some? ==> Backed(events, b.disk.value))
    && forall h | h in b.running :: Backed(events, b.running[h])
  }

  lemma MatchesStay(m: Held, manifest: Manifest, e: Event)
    requires CutMatches(m.identity, manifest, m.state) && Candidate(m, e).Some?
    ensures CutMatches(m.identity, manifest, Candidate(m, e).value)
  {
  }

  lemma BackedGrows(events: seq<Event>, e: Event, m: Held)
    requires Backed(events, m)
    ensures Backed(events + [e], m)
  {
    var all := events + [e];
    forall b | b in m.state.checkpoints ensures exists i :: 0 <= i < |all| && Backs(all[i], b, m) {
      var i :| 0 <= i < |events| && Backs(events[i], b, m);
      assert all[i] == events[i];
    }
  }

  lemma CandidateBacked(events: seq<Event>, e: Event, m: Held)
    requires Backed(events, m) && Candidate(m, e).Some?
    ensures Backed(events + [e], m.(state := Candidate(m, e).value))
  {
    var all, after := events + [e], m.(state := Candidate(m, e).value);
    forall b | b in after.state.checkpoints ensures exists i :: 0 <= i < |all| && Backs(all[i], b, after) {
      if e.CheckpointPublished? && e.manifest.branchId == b {
        assert Backs(all[|events|], b, after);
      } else {
        var i :| 0 <= i < |events| && Backs(events[i], b, m);
        MatchesStay(m, events[i].manifest, e);
        assert Backs(all[i], b, after);
      }
    }
  }

  lemma LoadedBacked(events: seq<Event>, disk: Option<Held>, identity: Identity, path: Option<File>)
    requires disk.Some? ==> Joined(disk.value.identity, disk.value.state) && Backed(events, disk.value)
    requires NamesDocument(disk, path) && Loaded(identity, path).Some?
    ensures Backed(events, Held(identity, Loaded(identity, path).value))
  {
    OpenGivesDurable(disk, identity, path);
  }

  lemma StepBacked(events: seq<Event>, b: Book, e: Event)
    requires AllBacked(events, b) && AllJoined(b) && OpensDocument(b, e)
    ensures AllBacked(events + [e], Step(b, e))
  {
    if b.disk.Some? { BackedGrows(events, e, b.disk.value); }
    forall h | h in b.running ensures Backed(events + [e], b.running[h]) { BackedGrows(events, e, b.running[h]); }
    if e.Opened? {
      if Loaded(e.identity, e.path).Some? { LoadedBacked(events + [e], b.disk, e.identity, e.path); }
    } else if !e.Gone? && e.handle in b.running && Candidate(b.running[e.handle], e).Some? {
      CandidateBacked(events, e, b.running[e.handle]);
    }
  }

  /** While indexes open the document, every pointer in memory or in the document was
      published by a manifest of its study for a declared branch, whose source cut is the
      one its repetition has. */
  lemma {:induction false} PointersMatchTheirCuts(events: seq<Event>)
    requires OpeningDocuments(START, events)
    ensures AllBacked(events, Steps(START, events))
  {
    if events != [] {
      var front, e := events[..|events| - 1], events[|events| - 1];
      PointersMatchTheirCuts(front);
      PointersAlwaysHaveCuts(START, front);
      assert events == front + [e];
      StepBacked(front, Steps(START, front), e);
    }
  }
}
