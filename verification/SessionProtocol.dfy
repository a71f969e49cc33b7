/** The session store as a protocol over its durable steps. */
module SessionProtocol {
  import opened Options
  import opened Sequences
  import opened WalText
  import opened SessionStore

  type Handle = nat

  /** Where a write is: the next durable step. */
  datatype Step = SaveBackup | Journal | SavePrimary | Return

  /** The write that holds the interprocess lock. */
  datatype Writer = Writer(handle: Handle, base: Recovery, next: Envelope, walMax: nat, step: Step)

  /** One complete log record: what was written, by whom, and what that handle had
      last seen. */
  datatype Commit = Commit(envelope: Envelope, handle: Handle, seen: Seen)

  /** Any number of handles on one set of files.  Every durable step of a write is an
      action of its own, with crashes, failures and damage anywhere.
      `log` is history kept for the statements below, and so is `backupIntact`: the
      backup has not been damaged since it was last written. */
  datatype System = System(
    disk: Disk,
    handles: map<Handle, Seen>,
    writer: Option<Writer>,
    log: seq<Commit>,
    backupIntact: bool)

  datatype Action =
    | Open(handle: Handle)
    | Read(handle: Handle)
    | Begin(handle: Handle, payload: string, walMax: nat)
    | Proceed
    | Tear(chars: nat, stray: nat, survives: bool)
    | Abort(survives: bool)
    | Drop(handle: Handle)
    | Repair(handle: Handle, completes: bool)
    | DamagePrimary(left: File)
    | DamageBackup(left: File)

  const EMPTY: System := System(Disk(NoFile, NoFile, NoWal), map[], None, [], true)

  function Leave(s: System, survives: bool): System
    requires s.writer.Some?
  {
    s.(writer := None, handles := if survives then s.handles else s.handles - {s.writer.value.handle})
  }

  /** One durable step of the current write. */
  function Advance(c: Codec, s: System): System
    requires s.writer.Some?
  {
    var w := s.writer.value;
    match w.step
    case SaveBackup =>
      if w.base.Found? then
        s.(disk := s.disk.(backup := Holds(c.encode(w.base.envelope))), backupIntact := true,
           writer := Some(w.(step := Journal)))
      else s.(writer := Some(w.(step := Journal)))
    case Journal =>
      s.(disk := s.disk.(wal := AfterJournal(c, s.disk.wal, w.next, w.walMax)),
         log := s.log + [Commit(w.next, w.handle, if w.handle in s.handles then s.handles[w.handle] else Unread)],
         writer := Some(w.(step := SavePrimary)))
    case SavePrimary =>
      s.(disk := s.disk.(primary := Holds(c.encode(w.next))), writer := Some(w.(step := Return)))
    case Return =>
      s.(handles := s.handles[w.handle := SeenOf(c, w.next)], writer := None)
  }

  /** An append may be cut short at any byte; a rotation replaces the log at once. */
  predicate MayTear(c: Codec, s: System, chars: nat, stray: nat) {
    && s.writer.Some? && s.writer.value.step == Journal
    && !Rotates(c, s.disk.wal, s.writer.value.next, s.writer.value.walMax)
    && var line := Line(c, s.writer.value.next);
       chars < |line| && stray < Utf8Width(line[chars])
  }

  predicate DamageTo(c: Codec, before: File, left: File) {
    before != NoFile && Candidate(c, left) == []
  }

  /** What an action does; an action that cannot happen does nothing. */
  function Apply(c: Codec, s: System, a: Action): System {
    match a
    case Open(h) => if h in s.handles then s else s.(handles := s.handles[h := Unread])
    case Read(h) =>
      if h in s.handles && s.writer.None? && Latest(c, s.disk).Found?
      then s.(handles := s.handles[h := SeenOf(c, Latest(c, s.disk).envelope)]) else s
    case Begin(h, payload, walMax) =>
      if h in s.handles && s.writer.None? && walMax > 0 && MayWrite(c, s.disk, s.handles[h])
      then s.(writer := Some(Writer(h, Latest(c, s.disk), NextEnvelope(c, s.disk, payload), walMax, SaveBackup)))
      else s
    case Proceed => if s.writer.Some? then Advance(c, s) else s
    case Tear(chars, stray, survives) =>
      if MayTear(c, s, chars, stray)
      then
        var torn := s.disk.wal.TornAppend(Line(c, s.writer.value.next), chars, stray);
        Leave(s.(disk := s.disk.(wal := torn)), survives)
      else s
    case Abort(survives) => if s.writer.Some? then Leave(s, survives) else s
    case Drop(h) =>
      if s.writer.Some? && s.writer.value.handle == h then s else s.(handles := s.handles - {h})
    case Repair(h, completes) =>
      if h in s.handles && s.writer.None? && Latest(c, s.disk).Found? then
        var e := Latest(c, s.disk).envelope;
        s.(disk := s.disk.(primary := Holds(c.encode(e))),
           handles := if completes then s.handles[h := SeenOf(c, e)] else s.handles)
      else s
    case DamagePrimary(left) =>
      if DamageTo(c, s.disk.primary, left) then s.(disk := s.disk.(primary := left)) else s
    case DamageBackup(left) =>
      if DamageTo(c, s.disk.backup, left) then s.(disk := s.disk.(backup := left), backupIntact := false) else s
  }

  function Run(c: Codec, actions: seq<Action>): System {
    if actions == [] then EMPTY
    else Apply(c, Run(c, actions[..|actions| - 1]), actions[|actions| - 1])
  }

  lemma RunSnoc(c: Codec, actions: seq<Action>, a: Action)
    ensures Run(c, actions + [a]) == Apply(c, Run(c, actions), a)
  {
    assert (actions + [a])[..|actions|] == actions;
  }

  // ---- What every reachable state satisfies ----

  /** The commits form one chain of consecutive revisions, each built on exactly the
      commit before it. */
  ghost predicate Chain(c: Codec, log: seq<Commit>) {
    forall i | 0 <= i < |log| :: BuildsOn(c, log, i)
  }

  ghost predicate BuildsOn(c: Codec, log: seq<Commit>, i: nat)
    requires i < |log|
  {
    log[i].envelope.revision == i + 1 && log[i].seen == SeenBefore(c, log, i)
  }

  /** What a handle has seen when it has seen the first `n` commits and no more. */
  ghost function SeenBefore(c: Codec, log: seq<Commit>, n: nat): Seen
    requires n <= |log|
  {
    if n == 0 then Unread else SeenOf(c, log[n - 1].envelope)
  }

  ghost predicate Committed(log: seq<Commit>, e: Envelope) {
    1 <= e.revision <= |log| && log[e.revision - 1].envelope == e
  }

  ghost predicate AllCommitted(log: seq<Commit>, es: seq<Envelope>) {
    forall i | 0 <= i < |es| :: Committed(log, es[i])
  }

  ghost predicate HandleSound(c: Codec, log: seq<Commit>, seen: Seen) {
    seen.Seen? ==> 1 <= seen.revision <= |log| && seen == SeenOf(c, log[seen.revision - 1].envelope)
  }

  ghost predicate HandlesSound(c: Codec, log: seq<Commit>, handles: map<Handle, Seen>) {
    forall h | h in handles :: HandleSound(c, log, handles[h])
  }

  /** The readable records of the log: committed, and ending in the last commit. */
  ghost predicate WalSound(c: Codec, log: seq<Commit>, wal: WalFile) {
    match ReadWal(c, wal)
    case None => true
    case Some(records) =>
      && AllCommitted(log, records)
      && (log != [] ==> records != [] && records[|records| - 1] == log[|log| - 1].envelope)
  }

  ghost predicate FileSound(c: Codec, log: seq<Commit>, f: File) {
    AllCommitted(log, Candidate(c, f)) && (log == [] ==> f == NoFile)
  }

  ghost function Last(s: System): Recovery {
    if s.log == [] then Nothing else Found(s.log[|s.log| - 1].envelope)
  }

  ghost predicate Readable(c: Codec, s: System) {
    ReadWal(c, s.disk.wal) != None
  }

  ghost predicate WriterSound(c: Codec, s: System) {
    s.writer.Some? ==>
      var w := s.writer.value;
      && w.handle in s.handles
      && match w.step
         case SaveBackup | Journal =>
           && Readable(c, s)
           && w.base == Last(s) && w.next.revision == |s.log| + 1
           && s.handles[w.handle] == SeenBefore(c, s.log, |s.log|)
         case SavePrimary | Return => Last(s) == Found(w.next)
  }

  /** An accepted snapshot of this envelope. */
  ghost predicate Keeps(c: Codec, f: File, e: Envelope) {
    f == Holds(c.encode(e)) && c.accepts(e.payload)
  }

  /** An undamaged backup holds one of the last two commits, and the last one while a
      write is about to extend the log. */
  ghost predicate BackupSound(c: Codec, s: System) {
    var n := |s.log|;
    s.backupIntact ==>
      && (n >= 2 ==> Keeps(c, s.disk.backup, s.log[n - 1].envelope) || Keeps(c, s.disk.backup, s.log[n - 2].envelope))
      && (n >= 1 && s.writer.Some? && s.writer.value.step == Journal ==>
            Keeps(c, s.disk.backup, s.log[n - 1].envelope))
  }

  /** While the log is readable the last commit has an accepted payload. */
  ghost predicate LastAccepted(c: Codec, s: System) {
    s.log != [] && Readable(c, s) ==> c.accepts(s.log[|s.log| - 1].envelope.payload)
  }

  ghost predicate Inv(c: Codec, s: System) {
    && Chain(c, s.log) && HandlesSound(c, s.log, s.handles) && WalSound(c, s.log, s.disk.wal)
    && FileSound(c, s.log, s.disk.primary) && FileSound(c, s.log, s.disk.backup)
    && WriterSound(c, s) && BackupSound(c, s) && LastAccepted(c, s)
  }

  // ---- Recovery in a sound state ----

  lemma {:induction false} MaxIs(es: seq<Envelope>, top: nat, k: nat)
    requires k < |es| && es[k].revision == top
    requires forall i | 0 <= i < |es| :: es[i].revision <= top
    ensures MaxRevision(es) == top
  {
    var front := es[..|es| - 1];
    if k == |es| - 1 {
      MaxAtMost(front, top);
    } else {
      MaxIs(front, top, k);
    }
  }

  lemma {:induction false} MaxAtMost(es: seq<Envelope>, top: nat)
    requires forall i | 0 <= i < |es| :: es[i].revision <= top
    ensures MaxRevision(es) <= top
  {
    if es != [] { MaxAtMost(es[..|es| - 1], top); }
  }

  lemma {:induction false} AtRevisionAll(es: seq<Envelope>, r: nat, e: Envelope)
    requires forall i | 0 <= i < |es| && es[i].revision == r :: es[i] == e
    ensures forall i | 0 <= i < |AtRevision(es, r)| :: AtRevision(es, r)[i] == e
    ensures (exists i :: 0 <= i < |es| && es[i].revision == r) ==> AtRevision(es, r) != []
  {
    if es != [] { AtRevisionAll(es[..|es| - 1], r, e); }
  }

  /** Among committed candidates that include the last commit, the choice is that one. */
  lemma ChooseLast(c: Codec, log: seq<Commit>, es: seq<Envelope>, k: nat)
    requires AllCommitted(log, es) && log != [] && k < |es| && es[k] == log[|log| - 1].envelope
    requires log[|log| - 1].envelope.revision == |log|
    ensures Choose(c, es) == Found(log[|log| - 1].envelope)
  {
    var top := log[|log| - 1].envelope;
    MaxIs(es, |log|, k);
    AtRevisionAll(es, |log|, top);
    assert es[k].revision == |log|;
  }

  lemma LastCommitted(c: Codec, log: seq<Commit>)
    requires Chain(c, log) && log != []
    ensures Committed(log, log[|log| - 1].envelope) && log[|log| - 1].envelope.revision == |log|
  {
    assert BuildsOn(c, log, |log| - 1);
  }

  lemma Appended(log: seq<Commit>, a: seq<Envelope>, b: seq<Envelope>)
    requires AllCommitted(log, a) && AllCommitted(log, b)
    ensures AllCommitted(log, a + b)
  {
  }

  /** Recovery in every sound state: it fails closed exactly when the log cannot be
      read, and otherwise returns the last commit. */
  lemma RecoveryExact(c: Codec, s: System)
    requires Inv(c, s)
    ensures Latest(c, s.disk) == if Readable(c, s) then Last(s) else Failed
  {
    if Readable(c, s) {
      if s.log == [] { NothingToRecover(c, s.disk); } else { LastIsRecovered(c, s.log, s.disk); }
    }
  }

  lemma NothingToRecover(c: Codec, d: Disk)
    requires ReadWal(c, d.wal) != None && WalSound(c, [], d.wal) && d.primary == NoFile && d.backup == NoFile
    ensures Latest(c, d) == Nothing
  {
    var records := ReadWal(c, d.wal).value;
    assert |records| == 0 || Committed([], records[0]);
  }

  lemma LastIsRecovered(c: Codec, log: seq<Commit>, d: Disk)
    requires ReadWal(c, d.wal) != None && WalSound(c, log, d.wal) && Chain(c, log) && log != []
    requires FileSound(c, log, d.primary) && FileSound(c, log, d.backup)
    ensures Latest(c, d) == Found(log[|log| - 1].envelope)
  {
    var records := ReadWal(c, d.wal).value;
    var es := Candidates(c, d, records);
    LastCommitted(c, log);
    Appended(log, Candidate(c, d.primary), Candidate(c, d.backup));
    Appended(log, Candidate(c, d.primary) + Candidate(c, d.backup), records);
    ChooseLast(c, log, es, |es| - 1);
  }

  // ---- What one append does to the log ----

  /** The unfinished line that an append would extend. */
  function Tail(wal: WalFile): string {
    match wal
    case Utf8(text) => LastPiece(text)
    case _ => ""
  }

  /** When journalling `e` leaves a readable log: its payload is accepted, the record has
      no line break inside, and it starts a new file or goes after a finished line. */
  predicate JournalsCleanly(c: Codec, wal: WalFile, e: Envelope, walMax: nat) {
    && c.accepts(e.payload) && NoBreak(c.encode(e))
    && (Rotates(c, wal, e, walMax) || JsonBlank(Tail(wal)))
  }

  lemma JournalReads(c: Codec, wal: WalFile, e: Envelope, walMax: nat)
    requires Lawful(c) && ReadWal(c, wal).Some?
    ensures ReadWal(c, AfterJournal(c, wal, e, walMax)) ==
            if !JournalsCleanly(c, wal, e, walMax) then None
            else Some((if Rotates(c, wal, e, walMax) then [] else ReadWal(c, wal).value) + [e])
  {
    AppendReads(c, "", e);
    assert "" + c.encode(e) + "\n" == Line(c, e);
    if wal.Utf8? {
      AppendReads(c, wal.text, e);
      Associative(wal.text, c.encode(e), "\n");
    }
  }

  lemma TearReads(c: Codec, wal: WalFile, e: Envelope, chars: nat, stray: nat)
    requires Lawful(c) && ReadWal(c, wal).Some?
    requires chars < |Line(c, e)| && stray < Utf8Width(Line(c, e)[chars])
    ensures ReadWal(c, wal.TornAppend(Line(c, e), chars, stray)) == if stray == 0 then ReadWal(c, wal) else None
  {
    var part := Line(c, e)[..chars];
    assert RecordShape(c.encode(e));
    assert forall i | 0 <= i < |part| :: part[i] == c.encode(e)[i];
    TearInvisible(c, "", part);
    assert "" + part == part;
    if wal.Utf8? { TearInvisible(c, wal.text, part); }
  }

  // ---- Every action keeps the invariant ----

  lemma CommittedGrows(log: seq<Commit>, x: Commit, es: seq<Envelope>)
    requires AllCommitted(log, es)
    ensures AllCommitted(log + [x], es)
  {
  }

  lemma CandidateOfEncoding(c: Codec, e: Envelope)
    requires Lawful(c)
    ensures Candidate(c, Holds(c.encode(e))) == if c.accepts(e.payload) then [e] else []
  {
  }

  lemma ChainGrows(c: Codec, log: seq<Commit>, x: Commit)
    requires Chain(c, log) && x.envelope.revision == |log| + 1 && x.seen == SeenBefore(c, log, |log|)
    ensures Chain(c, log + [x])
  {
    var after := log + [x];
    forall i | 0 <= i < |after| ensures BuildsOn(c, after, i) {
      assert i < |log| ==> BuildsOn(c, log, i);
    }
  }

  lemma HandlesGrow(c: Codec, log: seq<Commit>, x: Commit, handles: map<Handle, Seen>)
    requires HandlesSound(c, log, handles)
    ensures HandlesSound(c, log + [x], handles)
  {
    forall h | h in handles ensures HandleSound(c, log + [x], handles[h]) {
      assert HandleSound(c, log, handles[h]);
    }
  }

  lemma FileGrows(c: Codec, log: seq<Commit>, x: Commit, f: File)
    requires FileSound(c, log, f)
    ensures FileSound(c, log + [x], f)
  {
    CommittedGrows(log, x, Candidate(c, f));
  }

  lemma RecordsGrow(log: seq<Commit>, x: Commit, before: seq<Envelope>)
    requires AllCommitted(log, before) && x.envelope.revision == |log| + 1
    ensures AllCommitted(log + [x], before + [x.envelope]) && AllCommitted(log + [x], [] + [x.envelope])
  {
    CommittedGrows(log, x, before);
    assert Committed(log + [x], x.envelope);
  }

  /** After the journal step: the log cannot be read, or it ends in the new record,
      whose payload is accepted. */
  ghost predicate Landed(c: Codec, s: System)
    requires s.writer.Some?
  {
    var w := s.writer.value;
    var records := ReadWal(c, AfterJournal(c, s.disk.wal, w.next, w.walMax));
    || records == None
    || (&& c.accepts(w.next.payload) && Readable(c, s)
        && (records == Some(ReadWal(c, s.disk.wal).value + [w.next]) || records == Some([] + [w.next])))
  }

  lemma LandedWal(c: Codec, s: System)
    requires s.writer.Some? && s.writer.value.step == Journal && Landed(c, s)
    requires WalSound(c, s.log, s.disk.wal) && s.writer.value.next.revision == |s.log| + 1
    ensures WalSound(c, Advance(c, s).log, Advance(c, s).disk.wal) && LastAccepted(c, Advance(c, s))
  {
    if Readable(c, Advance(c, s)) {
      var w := s.writer.value;
      var x := Commit(w.next, w.handle, if w.handle in s.handles then s.handles[w.handle] else Unread);
      RecordsGrow(s.log, x, ReadWal(c, s.disk.wal).value);
    }
  }

  lemma LandedBackup(c: Codec, s: System)
    requires s.writer.Some? && s.writer.value.step == Journal && BackupSound(c, s)
    ensures BackupSound(c, Advance(c, s))
  {
  }

  /** A journal step makes the new envelope the last commit. */
  lemma JournalLands(c: Codec, s: System)
    requires Inv(c, s) && s.writer.Some? && s.writer.value.step == Journal && Landed(c, s)
    ensures Inv(c, Advance(c, s))
  {
    var w, after := s.writer.value, Advance(c, s);
    var x := Commit(w.next, w.handle, s.handles[w.handle]);
    ChainGrows(c, s.log, x);
    HandlesGrow(c, s.log, x, s.handles);
    FileGrows(c, s.log, x, s.disk.primary);
    FileGrows(c, s.log, x, s.disk.backup);
    LandedWal(c, s);
    LandedBackup(c, s);
    assert WriterSound(c, after);
  }

  lemma LastFileSound(c: Codec, log: seq<Commit>)
    requires Lawful(c) && Chain(c, log) && log != []
    ensures FileSound(c, log, Holds(c.encode(log[|log| - 1].envelope)))
  {
    LastCommitted(c, log);
    CandidateOfEncoding(c, log[|log| - 1].envelope);
  }

  lemma SaveBackupKeeps(c: Codec, s: System)
    requires Lawful(c) && Inv(c, s) && s.writer.Some? && s.writer.value.step == SaveBackup
    ensures Inv(c, Advance(c, s))
  {
    if s.log != [] { LastFileSound(c, s.log); }
  }

  lemma ReturnKeeps(c: Codec, s: System)
    requires Inv(c, s) && s.writer.Some? && s.writer.value.step == Return
    ensures Inv(c, Advance(c, s))
  {
    LastCommitted(c, s.log);
  }

  lemma LeaveKeeps(c: Codec, s: System, survives: bool)
    requires Inv(c, s) && s.writer.Some?
    ensures Inv(c, Leave(s, survives))
  {
  }

  lemma LeaveWithLog(c: Codec, s: System, wal: WalFile, survives: bool)
    requires Inv(c, s) && s.writer.Some?
    requires ReadWal(c, wal) == None || ReadWal(c, wal) == ReadWal(c, s.disk.wal)
    requires s.writer.value.step == Journal
    ensures Inv(c, Leave(s.(disk := s.disk.(wal := wal)), survives))
  {
    assert WalSound(c, s.log, wal);
  }

  lemma TearKeeps(c: Codec, s: System, chars: nat, stray: nat, survives: bool)
    requires Lawful(c) && Inv(c, s) && MayTear(c, s, chars, stray)
    ensures Inv(c, Apply(c, s, Tear(chars, stray, survives)))
  {
    TearReads(c, s.disk.wal, s.writer.value.next, chars, stray);
    LeaveWithLog(c, s, s.disk.wal.TornAppend(Line(c, s.writer.value.next), chars, stray), survives);
  }

  /** A handle takes up the last commit. */
  function Noticed(c: Codec, s: System, h: Handle, e: Envelope): System {
    s.(handles := s.handles[h := SeenOf(c, e)])
  }

  lemma HandlesNotice(c: Codec, log: seq<Commit>, handles: map<Handle, Seen>, h: Handle)
    requires Chain(c, log) && log != [] && HandlesSound(c, log, handles)
    ensures HandlesSound(c, log, handles[h := SeenOf(c, log[|log| - 1].envelope)])
  {
    LastCommitted(c, log);
  }

  lemma SeenLast(c: Codec, s: System, h: Handle, e: Envelope)
    requires Inv(c, s) && Last(s) == Found(e) && s.writer.None?
    ensures Inv(c, Noticed(c, s, h, e))
  {
    HandlesNotice(c, s.log, s.handles, h);
  }

  lemma ReadKeeps(c: Codec, s: System, h: Handle)
    requires Inv(c, s)
    ensures Inv(c, Apply(c, s, Read(h)))
  {
    RecoveryExact(c, s);
    if s.writer.None? && Latest(c, s.disk).Found? { SeenLast(c, s, h, Latest(c, s.disk).envelope); }
  }

  lemma WriterStarts(c: Codec, s: System, h: Handle, payload: string, walMax: nat)
    requires Inv(c, s) && h in s.handles && MayWrite(c, s.disk, s.handles[h])
    ensures WriterSound(c, s.(writer := Some(
              Writer(h, Latest(c, s.disk), NextEnvelope(c, s.disk, payload), walMax, SaveBackup))))
  {
    RecoveryExact(c, s);
    if s.log == [] {
      assert HandleSound(c, s.log, s.handles[h]);
    } else {
      LastCommitted(c, s.log);
    }
  }

  lemma StartedKeeps(c: Codec, s: System, w: Writer)
    requires Inv(c, s) && w.step == SaveBackup && WriterSound(c, s.(writer := Some(w)))
    ensures Inv(c, s.(writer := Some(w)))
  {
  }

  /** A write begins only from the last commit, and only a handle that has seen
      exactly that one may begin it. */
  lemma BeginKeeps(c: Codec, s: System, h: Handle, payload: string, walMax: nat)
    requires Inv(c, s)
    ensures Inv(c, Apply(c, s, Begin(h, payload, walMax)))
  {
    if h in s.handles && MayWrite(c, s.disk, s.handles[h]) {
      WriterStarts(c, s, h, payload, walMax);
      StartedKeeps(c, s, Writer(h, Latest(c, s.disk), NextEnvelope(c, s.disk, payload), walMax, SaveBackup));
    }
  }

  function PrimaryIs(c: Codec, s: System, e: Envelope): System {
    s.(disk := s.disk.(primary := Holds(c.encode(e))))
  }

  lemma PrimaryRewritten(c: Codec, s: System, e: Envelope)
    requires Lawful(c) && Inv(c, s) && Last(s) == Found(e)
    ensures Inv(c, PrimaryIs(c, s, e))
  {
    LastFileSound(c, s.log);
  }

  lemma WriterReturns(c: Codec, s: System)
    requires Inv(c, s) && s.writer.Some? && s.writer.value.step == SavePrimary
    ensures Inv(c, s.(writer := Some(s.writer.value.(step := Return))))
  {
  }

  lemma SavePrimaryKeeps(c: Codec, s: System)
    requires Lawful(c) && Inv(c, s) && s.writer.Some? && s.writer.value.step == SavePrimary
    ensures Inv(c, Advance(c, s))
  {
    PrimaryRewritten(c, s, s.writer.value.next);
    WriterReturns(c, PrimaryIs(c, s, s.writer.value.next));
  }

  lemma RepairKeeps(c: Codec, s: System, h: Handle, completes: bool)
    requires Lawful(c) && Inv(c, s)
    ensures Inv(c, Apply(c, s, Repair(h, completes)))
  {
    RecoveryExact(c, s);
    if s.writer.None? && Latest(c, s.disk).Found? {
      var e := Latest(c, s.disk).envelope;
      PrimaryRewritten(c, s, e);
      SeenLast(c, PrimaryIs(c, s, e), h, e);
    }
  }

  lemma OpenKeeps(c: Codec, s: System, h: Handle)
    requires Inv(c, s)
    ensures Inv(c, Apply(c, s, Open(h)))
  {
  }

  lemma DropKeeps(c: Codec, s: System, h: Handle)
    requires Inv(c, s)
    ensures Inv(c, Apply(c, s, Drop(h)))
  {
  }

  lemma DamagedFileSound(c: Codec, log: seq<Commit>, before: File, left: File)
    requires FileSound(c, log, before) && DamageTo(c, before, left)
    ensures FileSound(c, log, left)
  {
  }

  lemma PrimaryDamaged(c: Codec, s: System, left: File)
    requires Inv(c, s) && DamageTo(c, s.disk.primary, left)
    ensures Inv(c, s.(disk := s.disk.(primary := left)))
  {
    DamagedFileSound(c, s.log, s.disk.primary, left);
  }

  lemma DamagePrimaryKeeps(c: Codec, s: System, left: File)
    requires Inv(c, s)
    ensures Inv(c, Apply(c, s, DamagePrimary(left)))
  {
    if DamageTo(c, s.disk.primary, left) { PrimaryDamaged(c, s, left); }
  }

  lemma BackupDamaged(c: Codec, s: System, left: File)
    requires Inv(c, s) && DamageTo(c, s.disk.backup, left)
    ensures Inv(c, s.(disk := s.disk.(backup := left), backupIntact := false))
  {
    DamagedFileSound(c, s.log, s.disk.backup, left);
  }

  lemma DamageBackupKeeps(c: Codec, s: System, left: File)
    requires Inv(c, s)
    ensures Inv(c, Apply(c, s, DamageBackup(left)))
  {
    if DamageTo(c, s.disk.backup, left) { BackupDamaged(c, s, left); }
  }

  lemma ApplyKeeps(c: Codec, s: System, a: Action)
    requires Lawful(c) && Inv(c, s)
    ensures Inv(c, Apply(c, s, a))
  {
    match a
    case Read(h) => ReadKeeps(c, s, h);
    case Begin(h, payload, walMax) => BeginKeeps(c, s, h, payload, walMax);
    case Proceed =>
      if s.writer.Some? {
        match s.writer.value.step
        case SaveBackup => SaveBackupKeeps(c, s);
        case Journal =>
          JournalReads(c, s.disk.wal, s.writer.value.next, s.writer.value.walMax);
          JournalLands(c, s);
        case SavePrimary => SavePrimaryKeeps(c, s);
        case Return => ReturnKeeps(c, s);
      }
    case Tear(chars, stray, survives) =>
      if MayTear(c, s, chars, stray) { TearKeeps(c, s, chars, stray, survives); }
    case Abort(survives) => if s.writer.Some? { LeaveKeeps(c, s, survives); }
    case Repair(h, completes) => RepairKeeps(c, s, h, completes);
    case Open(h) => OpenKeeps(c, s, h);
    case Drop(h) => DropKeeps(c, s, h);
    case DamagePrimary(left) => DamagePrimaryKeeps(c, s, left);
    case DamageBackup(left) => DamageBackupKeeps(c, s, left);
  }

  lemma {:induction false} RunSound(c: Codec, actions: seq<Action>)
    requires Lawful(c)
    ensures Inv(c, Run(c, actions))
  {
    if actions != [] {
      RunSound(c, actions[..|actions| - 1]);
      ApplyKeeps(c, Run(c, actions[..|actions| - 1]), actions[|actions| - 1]);
    }
  }

  // ---- Main results ----

  ghost predicate Reachable(c: Codec, s: System) {
    exists actions :: s == Run(c, actions)
  }

  lemma ReachableSound(c: Codec, s: System)
    requires Lawful(c) && Reachable(c, s)
    ensures Inv(c, s)
  {
    var actions :| s == Run(c, actions);
    RunSound(c, actions);
  }

  /** Crash safety.  After any run, with crashes and failures between or inside any
      steps and with the snapshot files damaged at will, recovery returns exactly the
      last committed envelope, or fails because the log is unreadable; it never
      returns an older or a mixed state. */
  lemma RecoveryReturnsLastCommit(c: Codec, s: System)
    requires Lawful(c) && Reachable(c, s)
    ensures Latest(c, s.disk) == if Readable(c, s) then Last(s) else Failed
  {
    ReachableSound(c, s);
    RecoveryExact(c, s);
  }

  /** The actions after which the log cannot be read: an append cut inside a
      multi-byte character, or a record journalled over an unfinished line, with a line
      break inside or with a payload that is not accepted. */
  predicate Spoils(c: Codec, s: System, a: Action) {
    match a
    case Tear(chars, stray, _) => MayTear(c, s, chars, stray) && stray > 0
    case Proceed =>
      && s.writer.Some? && s.writer.value.step == Journal
      && !JournalsCleanly(c, s.disk.wal, s.writer.value.next, s.writer.value.walMax)
    case _ => false
  }

  lemma OthersLeaveLog(c: Codec, s: System, a: Action)
    requires !a.Proceed? && !a.Tear?
    ensures Apply(c, s, a).disk.wal == s.disk.wal
  {
  }

  lemma ProceedReadable(c: Codec, s: System)
    requires Lawful(c) && WriterSound(c, s) && s.writer.Some?
    ensures Readable(c, Advance(c, s)) <==> Readable(c, s) && !Spoils(c, s, Proceed)
  {
    if s.writer.value.step == Journal {
      JournalReads(c, s.disk.wal, s.writer.value.next, s.writer.value.walMax);
    }
  }

  lemma TearReadable(c: Codec, s: System, chars: nat, stray: nat, survives: bool)
    requires Lawful(c) && WriterSound(c, s) && MayTear(c, s, chars, stray)
    ensures Readable(c, Apply(c, s, Tear(chars, stray, survives))) <==> Readable(c, s) && stray == 0
  {
    TearReads(c, s.disk.wal, s.writer.value.next, chars, stray);
  }

  /** One action and the log: it can be read after exactly when it could before and the
      action does not spoil it. */
  lemma ReadableExact(c: Codec, s: System, a: Action)
    requires Lawful(c) && Inv(c, s)
    ensures Readable(c, Apply(c, s, a)) <==> Readable(c, s) && !Spoils(c, s, a)
  {
    match a
    case Proceed => if s.writer.Some? { ProceedReadable(c, s); }
    case Tear(chars, stray, survives) =>
      if MayTear(c, s, chars, stray) { TearReadable(c, s, chars, stray, survives); }
    case _ => OthersLeaveLog(c, s, a);
  }

  ghost predicate Unspoiled(c: Codec, actions: seq<Action>) {
    actions == [] ||
    var front := actions[..|actions| - 1];
    Unspoiled(c, front) && !Spoils(c, Run(c, front), actions[|actions| - 1])
  }

  /** Recovery works after a run exactly when none of its actions spoiled the log. */
  lemma {:induction false} RunReadableExact(c: Codec, actions: seq<Action>)
    requires Lawful(c)
    ensures Readable(c, Run(c, actions)) <==> Unspoiled(c, actions)
  {
    if actions != [] {
      var front := actions[..|actions| - 1];
      RunReadableExact(c, front);
      RunSound(c, front);
      ReadableExact(c, Run(c, front), actions[|actions| - 1]);
    }
  }

  /** While the log cannot be read no write begins, and none can be at its journal step. */
  lemma UnreadableStays(c: Codec, s: System, a: Action)
    requires Inv(c, s) && !Readable(c, s)
    ensures Apply(c, s, a).disk.wal == s.disk.wal && Apply(c, s, a).log == s.log
  {
    RecoveryExact(c, s);
  }

  lemma UnreadableStep(c: Codec, actions: seq<Action>, a: Action)
    requires Lawful(c) && !Readable(c, Run(c, actions))
    ensures Run(c, actions + [a]).disk.wal == Run(c, actions).disk.wal
    ensures Run(c, actions + [a]).log == Run(c, actions).log
  {
    RunSnoc(c, actions, a);
    RunSound(c, actions);
    UnreadableStays(c, Run(c, actions), a);
  }

  lemma {:induction false} UnreadableLogStays(c: Codec, actions: seq<Action>, more: seq<Action>)
    requires Lawful(c) && !Readable(c, Run(c, actions))
    ensures Run(c, actions + more).disk.wal == Run(c, actions).disk.wal
    ensures Run(c, actions + more).log == Run(c, actions).log
  {
    if more == [] {
      assert actions + more == actions;
    } else {
      var front, last := more[..|more| - 1], more[|more| - 1];
      UnreadableLogStays(c, actions, front);
      UnreadableStep(c, actions + front, last);
      assert actions + more == actions + front + [last];
    }
  }

  /** Once unreadable, the log and everything committed stay as they are for ever: no
      later operation on the session succeeds. */
  lemma UnreadableForever(c: Codec, actions: seq<Action>, more: seq<Action>)
    requires Lawful(c) && !Readable(c, Run(c, actions))
    ensures var s, later := Run(c, actions), Run(c, actions + more);
            later.disk.wal == s.disk.wal && later.log == s.log && Latest(c, later.disk) == Failed
  {
    UnreadableLogStays(c, actions, more);
    RecoveryReturnsLastCommit(c, Run(c, actions + more));
  }

  /** Compare-and-swap: over any interleaving of handles and crashes the commits are
      one chain of consecutive revisions, and each was made by a handle that had last
      seen exactly the commit before it. */
  lemma CommitsFormOneChain(c: Codec, s: System, i: nat)
    requires Lawful(c) && Reachable(c, s) && i < |s.log|
    ensures s.log[i].envelope.revision == i + 1
    ensures s.log[i].seen == if i == 0 then Unread else SeenOf(c, s.log[i - 1].envelope)
  {
    ReachableSound(c, s);
    assert BuildsOn(c, s.log, i);
  }

  lemma StepExtendsLog(c: Codec, actions: seq<Action>, a: Action)
    ensures Run(c, actions).log <= Run(c, actions + [a]).log
  {
    RunSnoc(c, actions, a);
  }

  lemma {:induction false} LogStays(c: Codec, actions: seq<Action>, more: seq<Action>)
    ensures Run(c, actions).log <= Run(c, actions + more).log
  {
    if more == [] {
      assert actions + more == actions;
    } else {
      var front, last := more[..|more| - 1], more[|more| - 1];
      LogStays(c, actions, front);
      StepExtendsLog(c, actions + front, last);
      assert actions + more == actions + front + [last];
    }
  }

  predicate NotOlder(before: Envelope, after: Envelope) {
    before.revision <= after.revision && (before.revision == after.revision ==> after == before)
  }

  lemma LongerChain(c: Codec, log: seq<Commit>, later: seq<Commit>)
    requires Chain(c, later) && log != [] && log <= later
    ensures NotOlder(log[|log| - 1].envelope, later[|later| - 1].envelope)
  {
    assert BuildsOn(c, later, |log| - 1) && BuildsOn(c, later, |later| - 1);
    assert log[|log| - 1] == later[|log| - 1];
  }

  /** Recovery in a later state fails closed or gives a revision no older than before,
      and for the same revision the same envelope. */
  ghost predicate RecoversNoLess(c: Codec, s: System, later: System) {
    Latest(c, s.disk).Found? ==>
      Latest(c, later.disk) == Failed ||
      (Latest(c, later.disk).Found? && NotOlder(Latest(c, s.disk).envelope, Latest(c, later.disk).envelope))
  }

  ghost predicate RecoversLast(c: Codec, s: System) {
    Latest(c, s.disk) == if Readable(c, s) then Last(s) else Failed
  }

  lemma RunRecovers(c: Codec, actions: seq<Action>)
    requires Lawful(c)
    ensures RecoversLast(c, Run(c, actions)) && Chain(c, Run(c, actions).log)
  {
    RunSound(c, actions);
    RecoveryExact(c, Run(c, actions));
  }

  lemma LongerLogRecoversNoLess(c: Codec, s: System, later: System)
    requires RecoversLast(c, s) && RecoversLast(c, later)
    requires Chain(c, later.log) && s.log <= later.log
    ensures RecoversNoLess(c, s, later)
  {
    if s.log != [] { LongerChain(c, s.log, later.log); }
  }

  /** No commit is lost, whatever happens afterwards. */
  lemma RecoveryNeverGoesBack(c: Codec, actions: seq<Action>, more: seq<Action>)
    requires Lawful(c)
    ensures RecoversNoLess(c, Run(c, actions), Run(c, actions + more))
  {
    RunRecovers(c, actions);
    RunRecovers(c, actions + more);
    LogStays(c, actions, more);
    LongerLogRecoversNoLess(c, Run(c, actions), Run(c, actions + more));
  }

  lemma SawLastExactly(c: Codec, log: seq<Commit>, seen: Seen)
    requires Chain(c, log) && HandleSound(c, log, seen) && seen.Seen?
    ensures seen == SeenOf(c, log[|log| - 1].envelope) <==> seen.revision == |log|
  {
    LastCommitted(c, log);
  }

  lemma HandleFacts(c: Codec, s: System, h: Handle)
    requires Lawful(c) && Reachable(c, s) && h in s.handles && s.handles[h].Seen?
    ensures Chain(c, s.log) && HandleSound(c, s.log, s.handles[h])
  {
    ReachableSound(c, s);
  }

  /** What a handle has read, or was told its write made durable, is a commit; it may
      write exactly when that commit is the last one and the log is readable. */
  lemma HandlesSeeCommits(c: Codec, s: System, h: Handle)
    requires Lawful(c) && Reachable(c, s) && h in s.handles && s.handles[h].Seen?
    ensures 1 <= s.handles[h].revision <= |s.log|
    ensures s.handles[h] == SeenOf(c, s.log[s.handles[h].revision - 1].envelope)
    ensures MayWrite(c, s.disk, s.handles[h]) <==> Readable(c, s) && s.handles[h].revision == |s.log|
  {
    HandleFacts(c, s, h);
    RecoveryReturnsLastCommit(c, s);
    SawLastExactly(c, s.log, s.handles[h]);
  }

  /** A write by a handle that has not seen the last commit changes nothing at all. */
  lemma StaleWriteRejected(c: Codec, s: System, h: Handle, payload: string, walMax: nat)
    requires Lawful(c) && Reachable(c, s) && h in s.handles && s.log != []
    requires s.handles[h] != SeenOf(c, s.log[|s.log| - 1].envelope)
    ensures Apply(c, s, Begin(h, payload, walMax)) == s
  {
    ReachableSound(c, s);
    RecoveryExact(c, s);
  }

  /** Two envelopes on the disk with one revision are one envelope. */
  lemma OnePayloadPerRevision(c: Codec, s: System, records: seq<Envelope>, i: nat, j: nat)
    requires Lawful(c) && Reachable(c, s) && ReadWal(c, s.disk.wal) == Some(records)
    requires i < |Candidates(c, s.disk, records)| && j < |Candidates(c, s.disk, records)|
    requires Candidates(c, s.disk, records)[i].revision == Candidates(c, s.disk, records)[j].revision
    ensures Candidates(c, s.disk, records)[i] == Candidates(c, s.disk, records)[j]
  {
    ReachableSound(c, s);
    var primary, backup := Candidate(c, s.disk.primary), Candidate(c, s.disk.backup);
    Appended(s.log, primary, backup);
    Appended(s.log, primary + backup, records);
    var es := Candidates(c, s.disk, records);
    assert Committed(s.log, es[i]) && Committed(s.log, es[j]);
  }

  lemma SnapshotsDoNotMatter(c: Codec, s: System, primary: File, backup: File)
    requires Inv(c, s) && Readable(c, s) && s.log != []
    requires AllCommitted(s.log, Candidate(c, primary)) && AllCommitted(s.log, Candidate(c, backup))
    ensures Latest(c, s.disk.(primary := primary, backup := backup)) == Last(s)
  {
    RecoveryExact(c, s.(disk := s.disk.(primary := primary, backup := backup), backupIntact := false));
  }

  /** Media loss.  With a readable log, losing or damaging the primary, the backup or
      both changes nothing about what recovery returns, once something is committed. */
  lemma SnapshotLossInvisible(c: Codec, s: System, primary: File, backup: File)
    requires Lawful(c) && Reachable(c, s) && Readable(c, s) && s.log != []
    requires primary == s.disk.primary || Candidate(c, primary) == []
    requires backup == s.disk.backup || Candidate(c, backup) == []
    ensures Latest(c, s.disk.(primary := primary, backup := backup)) == Latest(c, s.disk) == Last(s)
  {
    ReachableSound(c, s);
    SnapshotsDoNotMatter(c, s, primary, backup);
    RecoveryExact(c, s);
  }

  /** The choice between a committed primary, if any, and a backup holding one of the
      last two commits. */
  lemma ChooseFromSnapshots(c: Codec, log: seq<Commit>, primary: seq<Envelope>, back: Envelope)
    requires Chain(c, log) && |log| >= 2 && |primary| <= 1 && AllCommitted(log, primary)
    requires back == log[|log| - 1].envelope || back == log[|log| - 2].envelope
    ensures var r := Choose(c, primary + [back]);
            r == Found(log[|log| - 1].envelope) || r == Found(log[|log| - 2].envelope)
  {
    var n, es := |log|, primary + [back];
    LastCommitted(c, log);
    assert BuildsOn(c, log, n - 2);
    assert Committed(log, back);
    Appended(log, primary, [back]);
    if back == log[n - 1].envelope {
      ChooseLast(c, log, es, |primary|);
    } else if primary != [] && primary[0] == log[n - 1].envelope {
      ChooseLast(c, log, es, 0);
    } else {
      assert primary == [] || Committed(log, primary[0]);
      assert AllCommitted(log[..n - 1], primary) && AllCommitted(log[..n - 1], [back]);
      Appended(log[..n - 1], primary, [back]);
      ChooseLast(c, log[..n - 1], es, |primary|);
    }
  }

  lemma LostLog(c: Codec, s: System, back: Envelope)
    requires Lawful(c) && Chain(c, s.log) && |s.log| >= 2 && AllCommitted(s.log, Candidate(c, s.disk.primary))
    requires Keeps(c, s.disk.backup, back)
    requires back == s.log[|s.log| - 1].envelope || back == s.log[|s.log| - 2].envelope
    ensures var recovered := Latest(c, s.disk.(wal := NoWal));
            || recovered == Found(s.log[|s.log| - 1].envelope)
            || recovered == Found(s.log[|s.log| - 2].envelope)
  {
    CandidateOfEncoding(c, back);
    ChooseFromSnapshots(c, s.log, Candidate(c, s.disk.primary), back);
    LatestWithoutLog(c, s.disk.(wal := NoWal), back);
  }

  lemma LatestWithoutLog(c: Codec, d: Disk, back: Envelope)
    requires d.wal == NoWal && Candidate(c, d.backup) == [back]
    ensures Latest(c, d) == Choose(c, Candidate(c, d.primary) + [back])
  {
    assert Candidates(c, d, []) == Candidate(c, d.primary) + [back];
  }

  /** Deleting the log, readable or not, loses at most the latest commit once two are
      made, whatever became of the primary, while the backup is not damaged. */
  lemma LogLossLosesAtMostOne(c: Codec, s: System)
    requires Lawful(c) && Reachable(c, s) && |s.log| >= 2 && s.backupIntact
    ensures var recovered := Latest(c, s.disk.(wal := NoWal));
            || recovered == Found(s.log[|s.log| - 1].envelope)
            || recovered == Found(s.log[|s.log| - 2].envelope)
  {
    ReachableSound(c, s);
    var last, before := s.log[|s.log| - 1].envelope, s.log[|s.log| - 2].envelope;
    LostLog(c, s, if Keeps(c, s.disk.backup, last) then last else before);
  }

  lemma SameLogSameRecovery(c: Codec, s: System, after: System)
    requires Inv(c, s) && Inv(c, after) && after.log == s.log && after.disk.wal == s.disk.wal
    ensures Latest(c, after.disk) == Latest(c, s.disk)
  {
    RecoveryExact(c, s);
    RecoveryExact(c, after);
  }

  /** Repairing the primary never changes what recovery returns. */
  lemma RepairKeepsRecovery(c: Codec, s: System, h: Handle, completes: bool)
    requires Lawful(c) && Reachable(c, s)
    ensures Latest(c, Apply(c, s, Repair(h, completes)).disk) == Latest(c, s.disk)
  {
    ReachableSound(c, s);
    RepairKeeps(c, s, h, completes);
    SameLogSameRecovery(c, s, Apply(c, s, Repair(h, completes)));
  }

  /** The store's write method is the protocol run without interruptions. */
  lemma WriteIsProtocolRun(c: Codec, s: System, h: Handle, payload: string, walMax: nat)
    requires h in s.handles && s.writer.None? && walMax > 0 && MayWrite(c, s.disk, s.handles[h])
    ensures var begun := Apply(c, s, Begin(h, payload, walMax));
            var done := Apply(c, Apply(c, Apply(c, begun, Proceed), Proceed), Proceed);
            var finished := Apply(c, done, Proceed);
            && done.disk == finished.disk == AfterWrite(c, s.disk, payload, walMax)
            && finished.handles == s.handles[h := SeenOf(c, NextEnvelope(c, s.disk, payload))]
            && finished.writer == None
  {
  }

  lemma BraceInTail(t: string, part: string)
    requires part != "" && part[0] == '{' && NoBreak(part)
    ensures !JsonBlank(LastPiece(t + part))
  {
    PieceAfter(t, part);
    assert (LastPiece(t) + part)[|LastPiece(t)|] == '{';
  }

  /** A torn record that got past its first character, and holds no line break, leaves
      an unfinished line that blocks the next append. */
  lemma TearLeavesTail(c: Codec, wal: WalFile, e: Envelope, chars: nat)
    requires Lawful(c) && ReadWal(c, wal).Some?
    requires 0 < chars < |Line(c, e)| && NoBreak(Line(c, e)[..chars])
    ensures !JsonBlank(Tail(wal.TornAppend(Line(c, e), chars, 0)))
  {
    var part := Line(c, e)[..chars];
    assert RecordShape(c.encode(e));
    assert part[0] == c.encode(e)[0];
    if wal.Utf8? {
      BraceInTail(wal.text, part);
    } else {
      BraceInTail("", part);
      assert "" + part == part;
    }
  }

  /** The actions of a whole write. */
  function WriteActions(h: Handle, payload: string, walMax: nat): seq<Action> {
    [Begin(h, payload, walMax), Proceed, Proceed, Proceed, Proceed]
  }

  lemma RunWrite(c: Codec, actions: seq<Action>, h: Handle, payload: string, walMax: nat)
    ensures Run(c, actions + WriteActions(h, payload, walMax)) ==
            (var begun := Apply(c, Run(c, actions), Begin(h, payload, walMax));
             Apply(c, Apply(c, Apply(c, Apply(c, begun, Proceed), Proceed), Proceed), Proceed))
  {
    var a1 := actions + [Begin(h, payload, walMax)];
    RunSnoc(c, actions, Begin(h, payload, walMax));
    RunSnoc(c, a1, Proceed);
    RunSnoc(c, a1 + [Proceed], Proceed);
    RunSnoc(c, a1 + [Proceed] + [Proceed], Proceed);
    RunSnoc(c, a1 + [Proceed] + [Proceed] + [Proceed], Proceed);
    assert actions + WriteActions(h, payload, walMax) == a1 + [Proceed] + [Proceed] + [Proceed] + [Proceed];
  }

  lemma NextIsPayload(c: Codec, s: System, payload: string)
    requires Inv(c, s) && Readable(c, s)
    ensures NextEnvelope(c, s.disk, payload) == Envelope(|s.log| + 1, payload)
  {
    RecoveryExact(c, s);
    if s.log != [] { LastCommitted(c, s.log); }
  }

  /** The system when a whole write of `e` is done. */
  ghost function Written(c: Codec, s: System, h: Handle, e: Envelope, walMax: nat): System
    requires h in s.handles
  {
    var backup := if s.log == [] then s.disk.backup else Holds(c.encode(s.log[|s.log| - 1].envelope));
    System(Disk(Holds(c.encode(e)), backup, AfterJournal(c, s.disk.wal, e, walMax)),
           s.handles[h := Seen(e.revision, c.sha(e.payload))], None, s.log + [Commit(e, h, s.handles[h])],
           s.log != [] || s.backupIntact)
  }

  lemma BeginStep(c: Codec, s: System, h: Handle, payload: string, walMax: nat)
    requires h in s.handles && s.writer.None? && walMax > 0 && MayWrite(c, s.disk, s.handles[h])
    ensures Apply(c, s, Begin(h, payload, walMax)) ==
            At(s, Writer(h, Latest(c, s.disk), NextEnvelope(c, s.disk, payload), walMax, SaveBackup))
  {
  }

  /** The system with its writer at a step. */
  function At(s: System, w: Writer): System {
    s.(writer := Some(w))
  }

  lemma BackupStep(c: Codec, s: System, w: Writer)
    requires w.step == SaveBackup && w.base == Last(s)
    ensures Apply(c, At(s, w), Proceed) ==
            At(if s.log == [] then s
               else s.(disk := s.disk.(backup := Holds(c.encode(s.log[|s.log| - 1].envelope))), backupIntact := true),
               w.(step := Journal))
  {
  }

  lemma JournalStep(c: Codec, s: System, w: Writer)
    requires w.step == Journal && w.handle in s.handles
    ensures Apply(c, At(s, w), Proceed) ==
            At(s.(disk := s.disk.(wal := AfterJournal(c, s.disk.wal, w.next, w.walMax)),
                  log := s.log + [Commit(w.next, w.handle, s.handles[w.handle])]), w.(step := SavePrimary))
  {
  }

  lemma LastSteps(c: Codec, s: System, w: Writer)
    requires w.step == SavePrimary
    ensures Apply(c, Apply(c, At(s, w), Proceed), Proceed) ==
            s.(disk := s.disk.(primary := Holds(c.encode(w.next))),
               handles := s.handles[w.handle := SeenOf(c, w.next)], writer := None)
  {
  }

  lemma StepsOfWrite(c: Codec, s: System, h: Handle, payload: string, walMax: nat, e: Envelope)
    requires h in s.handles && s.writer.None? && walMax > 0 && MayWrite(c, s.disk, s.handles[h])
    requires Latest(c, s.disk) == Last(s) && NextEnvelope(c, s.disk, payload) == e
    ensures var begun := Apply(c, s, Begin(h, payload, walMax));
            Apply(c, Apply(c, Apply(c, Apply(c, begun, Proceed), Proceed), Proceed), Proceed) ==
            Written(c, s, h, e, walMax)
  {
    var w := Writer(h, Last(s), e, walMax, SaveBackup);
    var saved := if s.log == [] then s
                 else s.(disk := s.disk.(backup := Holds(c.encode(s.log[|s.log| - 1].envelope))), backupIntact := true);
    var journalled := saved.(disk := saved.disk.(wal := AfterJournal(c, saved.disk.wal, e, walMax)),
                             log := saved.log + [Commit(e, h, s.handles[h])]);
    BeginStep(c, s, h, payload, walMax);
    BackupStep(c, s, w);
    JournalStep(c, saved, w.(step := Journal));
    LastSteps(c, journalled, w.(step := SavePrimary));
  }

  lemma RunNext(c: Codec, actions: seq<Action>, payload: string)
    requires Lawful(c) && Readable(c, Run(c, actions))
    ensures var s := Run(c, actions);
            && Latest(c, s.disk) == Last(s)
            && NextEnvelope(c, s.disk, payload) == Envelope(|s.log| + 1, payload)
  {
    RunSound(c, actions);
    RecoveryExact(c, Run(c, actions));
    NextIsPayload(c, Run(c, actions), payload);
  }

  lemma MayWriteReadable(c: Codec, s: System, h: Handle)
    requires h in s.handles && MayWrite(c, s.disk, s.handles[h])
    ensures Readable(c, s)
  {
  }

  /** A write stores what it was given: it commits its payload under the next revision,
      puts it into the primary, keeps the commit before in the backup and tells its
      handle. */
  lemma WriteCommitsPayload(c: Codec, actions: seq<Action>, h: Handle, payload: string, walMax: nat)
    requires Lawful(c) && walMax > 0
    requires var s := Run(c, actions); h in s.handles && s.writer.None? && MayWrite(c, s.disk, s.handles[h])
    ensures var s := Run(c, actions);
            Run(c, actions + WriteActions(h, payload, walMax)) ==
            Written(c, s, h, Envelope(|s.log| + 1, payload), walMax)
  {
    var s := Run(c, actions);
    MayWriteReadable(c, s, h);
    RunNext(c, actions, payload);
    StepsOfWrite(c, s, h, payload, walMax, Envelope(|s.log| + 1, payload));
    RunWrite(c, actions, h, payload, walMax);
  }

  /** Reads find what was written, if it was journalled cleanly, and even without the log
      if its payload is accepted. */
  lemma WriteIsRead(c: Codec, actions: seq<Action>, h: Handle, payload: string, walMax: nat)
    requires Lawful(c) && walMax > 0
    requires var s := Run(c, actions); h in s.handles && s.writer.None? && MayWrite(c, s.disk, s.handles[h])
    ensures var s, written := Run(c, actions), Run(c, actions + WriteActions(h, payload, walMax));
            var e := Envelope(|s.log| + 1, payload);
            && (JournalsCleanly(c, s.disk.wal, e, walMax) ==> Latest(c, written.disk) == Found(e))
            && (c.accepts(payload) ==> Latest(c, written.disk.(wal := NoWal)) == Found(e))
  {
    var s, written := Run(c, actions), Run(c, actions + WriteActions(h, payload, walMax));
    var e := Envelope(|s.log| + 1, payload);
    WriteCommitsPayload(c, actions, h, payload, walMax);
    MayWriteReadable(c, s, h);
    JournalReads(c, s.disk.wal, e, walMax);
    RecoveryReturnsLastCommit(c, written);
    if c.accepts(payload) { LastSurvives(c, written, e); }
  }

  lemma LastSurvives(c: Codec, s: System, e: Envelope)
    requires Lawful(c) && Reachable(c, s) && Last(s) == Found(e)
    requires s.disk.primary == Holds(c.encode(e)) && c.accepts(e.payload)
    ensures Latest(c, s.disk.(wal := NoWal)) == Found(e)
  {
    ReachableSound(c, s);
    PrimarySurvives(c, s, e);
  }

  /** An accepted last commit in the primary is recovered without the log. */
  lemma PrimarySurvives(c: Codec, s: System, e: Envelope)
    requires Lawful(c) && Inv(c, s) && Last(s) == Found(e)
    requires s.disk.primary == Holds(c.encode(e)) && c.accepts(e.payload)
    ensures Latest(c, s.disk.(wal := NoWal)) == Found(e)
  {
    LastCommitted(c, s.log);
    CandidateOfEncoding(c, e);
    var backup := Candidate(c, s.disk.backup);
    Appended(s.log, [e], backup);
    ChooseLast(c, s.log, [e] + backup, 0);
    assert Candidates(c, s.disk.(wal := NoWal), []) == [e] + backup;
  }

  /** Reading gives a handle the last commit, and with it the right to write the next. */
  lemma ReaderMayWrite(c: Codec, s: System, h: Handle)
    requires Lawful(c) && Reachable(c, s) && Readable(c, s) && h in s.handles && s.writer.None?
    ensures var after := Apply(c, s, Read(h));
            && after.disk == s.disk && after.log == s.log && MayWrite(c, after.disk, after.handles[h])
            && (s.log != [] ==> after.handles[h] == SeenOf(c, s.log[|s.log| - 1].envelope))
  {
    RecoveryReturnsLastCommit(c, s);
  }

  lemma RepairApplied(c: Codec, s: System, h: Handle, completes: bool, e: Envelope)
    requires h in s.handles && s.writer.None? && Latest(c, s.disk) == Found(e)
    ensures Apply(c, s, Repair(h, completes)) ==
            if completes then Noticed(c, PrimaryIs(c, s, e), h, e) else PrimaryIs(c, s, e)
  {
  }

  lemma RewrittenSurvives(c: Codec, s: System, e: Envelope)
    requires Lawful(c) && Reachable(c, s) && Readable(c, s) && Last(s) == Found(e)
    ensures Latest(c, PrimaryIs(c, s, e).disk.(wal := NoWal)) == Found(e)
  {
    ReachableSound(c, s);
    PrimaryRewritten(c, s, e);
    PrimarySurvives(c, PrimaryIs(c, s, e), e);
  }

  /** A repair puts the last commit into the primary, so that the log can be lost, and
      tells its handle when it completes. */
  lemma RepairRestoresPrimary(c: Codec, s: System, h: Handle, completes: bool)
    requires Lawful(c) && Reachable(c, s) && Readable(c, s) && s.log != [] && h in s.handles && s.writer.None?
    ensures var after, e := Apply(c, s, Repair(h, completes)), s.log[|s.log| - 1].envelope;
            && after.disk == s.disk.(primary := Holds(c.encode(e)))
            && Latest(c, after.disk.(wal := NoWal)) == Found(e)
            && (completes ==> after.handles[h] == SeenOf(c, e))
  {
    RecoveryReturnsLastCommit(c, s);
    RepairApplied(c, s, h, completes, s.log[|s.log| - 1].envelope);
    RewrittenSurvives(c, s, s.log[|s.log| - 1].envelope);
  }

  /** The handle began a write of the payload. */
  predicate Began(actions: seq<Action>, n: nat, h: Handle, payload: string) {
    n < |actions| && actions[n].Begin? && actions[n].handle == h && actions[n].payload == payload
  }

  ghost predicate Requested(actions: seq<Action>, h: Handle, payload: string) {
    exists n :: Began(actions, n, h, payload)
  }

  ghost predicate AllRequested(actions: seq<Action>, s: System) {
    && (forall i | 0 <= i < |s.log| :: Requested(actions, s.log[i].handle, s.log[i].envelope.payload))
    && (s.writer.Some? ==> Requested(actions, s.writer.value.handle, s.writer.value.next.payload))
  }

  lemma RequestedGrows(actions: seq<Action>, a: Action, h: Handle, payload: string)
    requires Requested(actions, h, payload)
    ensures Requested(actions + [a], h, payload)
  {
    var n :| Began(actions, n, h, payload);
    assert Began(actions + [a], n, h, payload);
  }

  lemma StepRequested(c: Codec, actions: seq<Action>, s: System, a: Action)
    requires AllRequested(actions, s)
    ensures AllRequested(actions + [a], Apply(c, s, a))
  {
    forall i | 0 <= i < |s.log| ensures Requested(actions + [a], s.log[i].handle, s.log[i].envelope.payload) {
      RequestedGrows(actions, a, s.log[i].handle, s.log[i].envelope.payload);
    }
    if s.writer.Some? { RequestedGrows(actions, a, s.writer.value.handle, s.writer.value.next.payload); }
    if a.Begin? { assert Began(actions + [a], |actions|, a.handle, a.payload); }
  }

  /** In every run, with crashes and damage anywhere, what is committed is what its handle
      asked to write. */
  lemma {:induction false} CommitsWereRequested(c: Codec, actions: seq<Action>)
    ensures AllRequested(actions, Run(c, actions))
  {
    if actions != [] {
      var front, a := actions[..|actions| - 1], actions[|actions| - 1];
      CommitsWereRequested(c, front);
      StepRequested(c, front, Run(c, front), a);
      assert actions == front + [a];
    }
  }

  /** After a tear at a character boundary the next write that does not rotate the log
      reports success, and from then on, whatever happens, the session can never be
      read again. */
  lemma WriteAfterTearIsLost(c: Codec, actions: seq<Action>, h: Handle, payload: string, walMax: nat, more: seq<Action>)
    requires Lawful(c) && walMax > 0
    requires var s := Run(c, actions);
             && h in s.handles && s.writer.None? && MayWrite(c, s.disk, s.handles[h])
             && !JsonBlank(Tail(s.disk.wal)) && !Rotates(c, s.disk.wal, NextEnvelope(c, s.disk, payload), walMax)
    ensures var s, written := Run(c, actions), Run(c, actions + WriteActions(h, payload, walMax));
            && h in written.handles && written.handles[h] == SeenOf(c, NextEnvelope(c, s.disk, payload))
            && Latest(c, Run(c, actions + WriteActions(h, payload, walMax) + more).disk) == Failed
  {
    var s := Run(c, actions);
    var write := WriteActions(h, payload, walMax);
    RunSound(c, actions);
    RecoveryExact(c, s);
    RunWrite(c, actions, h, payload, walMax);
    JournalReads(c, s.disk.wal, NextEnvelope(c, s.disk, payload), walMax);
    WriteIsProtocolRun(c, s, h, payload, walMax);
    UnreadableForever(c, actions + write, more);
  }

  /** A crash in the very first append leaves a log file and nothing to recover. */
  lemma FirstAppendTorn(c: Codec, s: System, chars: nat, survives: bool)
    requires Lawful(c) && Reachable(c, s) && s.log == [] && MayTear(c, s, chars, 0)
    ensures var after := Apply(c, s, Tear(chars, 0, survives));
            after.disk.wal != NoWal && Latest(c, after.disk) == Nothing
  {
    ReachableSound(c, s);
    TearKeeps(c, s, chars, 0, survives);
    ReadableExact(c, s, Tear(chars, 0, survives));
    RecoveryExact(c, Apply(c, s, Tear(chars, 0, survives)));
  }
}
