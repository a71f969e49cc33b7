/** The index a crashed experiment resumes from: source cuts per repetition, a
    checkpoint pointer per branch, published durably before memory commits. */
module ResumeIndex {
  import opened Options
  import opened PythonText
  import NumberedRows

  const SCHEMA := "sem-paper.minecraft-resume-index.v1"

  /** `others` stands for the fields that only take part in comparing identities. */
  datatype Identity = Identity(runId: string, studyId: string, taskManifestDigest: string,
                               others: seq<string>, repetitions: nat)

  datatype WorldCut = WorldCut(cutId: string, details: seq<string>)

  /** A workload checkpoint manifest; its fields are never blank. */
  datatype Manifest = Manifest(runId: string, studyId: string, taskManifestDigest: string,
                               branchId: string, sourceCutId: string, checkpointId: string)

  datatype State = State(cuts: map<nat, WorldCut>, checkpoints: map<string, string>)

  /** The published JSON document. A row that builds no world cut, and a checkpoint that
      is no text, are absent. */
  datatype Document = Document(schema: string, identity: Identity,
                               cuts: map<string, Option<WorldCut>>, checkpoints: map<string, Option<string>>)

  /** What reading the index file gives. */
  datatype File = Malformed | Parsed(document: Document)

  // ---- Branch ids ----

  predicate IsRole(role: string) {
    role == "control" || role == "candidate"
  }

  predicate IsVariant(name: string) {
    name != [] && forall k | 0 <= k < |name| :: VariantChar(name[k])
  }

  predicate VariantChar(c: char) {
    'A' <= c <= 'Z' || 'a' <= c <= 'z' || '0' <= c <= '9' || c == '_' || c == '.' || c == '-'
  }

  /** The parser for branch ids. */
  function BranchRepetition(identity: Identity, branchId: string): Option<nat> {
    var prefix := identity.runId + ":";
    if !(prefix <= branchId) then None
    else
      var parts := Split(branchId[|prefix|..]);
      if (|parts| != 2 && |parts| != 3) || !IsRole(parts[0]) || !("rep-" <= parts[1]) then None
      else
        match ParseInt(parts[1][4..])
        case None => None
        case Some(n) =>
          if n < 0 || n >= identity.repetitions || (|parts| == 3 && !IsVariant(parts[2])) then None else Some(n)
  }

  function BranchText(identity: Identity, role: string, number: string, variant: Option<string>): string {
    identity.runId + ":" + (role + ":" + ("rep-" + number + if variant.Some? then ":" + variant.value else ""))
  }

  /** A branch of the study: a role, a number within the repetitions, perhaps a variant. */
  predicate IsBranch(identity: Identity, branchId: string, role: string, number: string,
                     variant: Option<string>, n: nat) {
    && IsRole(role) && ParseInt(number) == Some(n) && n < identity.repetitions
    && (variant.Some? ==> IsVariant(variant.value))
    && branchId == BranchText(identity, role, number, variant)
  }

  lemma RolesHoldNoColon(role: string)
    requires IsRole(role)
    ensures ':' !in role
  {
  }

  lemma BranchParses(identity: Identity, branchId: string, role: string, number: string,
                     variant: Option<string>, n: nat)
    requires IsBranch(identity, branchId, role, number, variant, n)
    ensures BranchRepetition(identity, branchId) == Some(n)
  {
    var prefix, rep := identity.runId + ":", "rep-" + number;
    NumbersHoldNoColon(number);
    RolesHoldNoColon(role);
    assert ':' !in rep;
    assert rep[4..] == number;
    if variant.Some? {
      var rest := rep + ":" + variant.value;
      assert rest == "rep-" + number + (":" + variant.value);
      assert branchId == prefix + (role + ":" + rest);
      assert branchId[|prefix|..] == role + ":" + rest;
      SplitAtColon(role, rest);
      SplitAtColon(rep, variant.value);
      SplitPiece(variant.value);
      assert Split(role + ":" + rest) == [role, rep, variant.value];
    } else {
      assert rep == "rep-" + number + "";
      assert branchId == prefix + (role + ":" + rep);
      assert branchId[|prefix|..] == role + ":" + rep;
      SplitAtColon(role, rep);
      SplitPiece(rep);
      assert Split(role + ":" + rep) == [role, rep];
    }
  }

  lemma JoinedParts(parts: seq<string>)
    requires |parts| == 2 || |parts| == 3
    ensures Join(parts) == parts[0] + ":" + (parts[1] + if |parts| == 3 then ":" + parts[2] else "")
  {
    assert Join(parts) == parts[0] + ":" + Join(parts[1..]);
    if |parts| == 3 {
      assert Join(parts[1..][1..]) == parts[2];
      assert Join(parts[1..]) == parts[1] + (":" + parts[2]);
    } else {
      assert Join(parts[1..]) == parts[1] + "";
    }
  }

  /** The parser accepts exactly the branch ids of the study, for any run id. */
  lemma BranchExact(identity: Identity, branchId: string, n: nat)
    ensures BranchRepetition(identity, branchId) == Some(n) <==>
            exists role, number, variant :: IsBranch(identity, branchId, role, number, variant, n)
  {
    if BranchRepetition(identity, branchId) == Some(n) {
      var prefix := identity.runId + ":";
      var tail := branchId[|prefix|..];
      var parts := Split(tail);
      JoinSplit(tail);
      var variant := if |parts| == 3 then Some(parts[2]) else None;
      assert parts[1] == "rep-" + parts[1][4..];
      JoinedParts(parts);
      assert branchId == prefix + tail;
      assert IsBranch(identity, branchId, parts[0], parts[1][4..], variant, n);
    }
    if role, number, variant :| IsBranch(identity, branchId, role, number, variant, n) {
      BranchParses(identity, branchId, role, number, variant, n);
    }
  }

  /** A printed branch id parses back to its repetition, whatever the run id holds. */
  lemma PrintedBranchParses(identity: Identity, role: string, n: nat, variant: Option<string>)
    requires IsRole(role) && n < identity.repetitions && (variant.Some? ==> IsVariant(variant.value))
    ensures BranchRepetition(identity, BranchText(identity, role, Decimal(n), variant)) == Some(n)
  {
    ParseDecimal(n);
    BranchParses(identity, BranchText(identity, role, Decimal(n), variant), role, Decimal(n), variant, n);
  }

  /** Branch ids as they are written. */
  lemma VariantSample(identity: Identity)
    requires identity.runId == "run-1" && identity.repetitions == 3
    ensures BranchRepetition(identity, "run-1:control:rep-2:Fixed-C") == Some(2)
  {
    assert Decimal(2) == "2";
    VariantText(identity);
    PrintedBranchParses(identity, "control", 2, Some("Fixed-C"));
  }

  lemma VariantText(identity: Identity)
    requires identity.runId == "run-1"
    ensures BranchText(identity, "control", "2", Some("Fixed-C")) == "run-1:control:rep-2:Fixed-C"
  {
  }

  lemma BaseSample(identity: Identity)
    requires identity.runId == "run-1" && identity.repetitions == 3
    ensures BranchRepetition(identity, "run-1:candidate:rep-0") == Some(0)
  {
    assert Decimal(0) == "0";
    assert BranchText(identity, "candidate", "0", None) == "run-1:candidate:rep-0";
    PrintedBranchParses(identity, "candidate", 0, None);
  }

  // ---- Documents ----

  predicate CheckpointRow(identity: Identity, branchId: string, row: Option<string>) {
    !Blank(branchId) && row.Some? && !Blank(row.value) && BranchRepetition(identity, branchId).Some?
  }

  ghost predicate CheckpointsReadable(identity: Identity, rows: map<string, Option<string>>) {
    forall b | b in rows :: CheckpointRow(identity, b, rows[b])
  }

  ghost function CheckpointsRead(identity: Identity, rows: map<string, Option<string>>): map<string, string>
    requires CheckpointsReadable(identity, rows)
  {
    map b | b in rows :: rows[b].value
  }

  predicate HasCut(identity: Identity, cuts: map<nat, WorldCut>, branchId: string) {
    BranchRepetition(identity, branchId).Some? && BranchRepetition(identity, branchId).value in cuts
  }

  /** The documents `open` accepts under an identity. */
  ghost predicate Readable(identity: Identity, file: File) {
    && file.Parsed? && file.document.schema == SCHEMA && file.document.identity == identity
    && NumberedRows.Readable(ParseInt, identity.repetitions, file.document.cuts)
    && CheckpointsReadable(identity, file.document.checkpoints)
    && forall b | b in file.document.checkpoints ::
         HasCut(identity, NumberedRows.Values(ParseInt, identity.repetitions, file.document.cuts), b)
  }

  ghost function StateRead(identity: Identity, file: File): State
    requires Readable(identity, file)
  {
    State(NumberedRows.Values(ParseInt, identity.repetitions, file.document.cuts),
          CheckpointsRead(identity, file.document.checkpoints))
  }

  const EMPTY := State(map[], map[])

  /** The state an index starts from: empty without a path, whatever files there are;
      none when the file at the path is refused. */
  ghost function Loaded(identity: Identity, path: Option<File>): Option<State> {
    match path
    case None => Some(EMPTY)
    case Some(file) => if Readable(identity, file) then Some(StateRead(identity, file)) else None
  }

  /** Cuts are for repetitions of the study; every pointer belongs to a branch of the
      study whose repetition has a cut. */
  ghost predicate Joined(identity: Identity, s: State) {
    && (forall n | n in s.cuts :: n < identity.repetitions)
    && (forall b | b in s.checkpoints :: !Blank(s.checkpoints[b]) && HasCut(identity, s.cuts, b))
  }

  lemma DecimalsDiffer()
    ensures forall m: nat, n: nat :: Decimal(m) == Decimal(n) ==> m == n
  {
    forall m: nat, n: nat | Decimal(m) == Decimal(n) ensures m == n {
      DecimalInjective(m, n);
    }
  }

  function CutRows(cuts: map<nat, WorldCut>): map<string, Option<WorldCut>> {
    DecimalsDiffer();
    map n | n in cuts :: Decimal(n) := Some(cuts[n])
  }

  function CheckpointRows(checkpoints: map<string, string>): map<string, Option<string>> {
    map b | b in checkpoints :: Some(checkpoints[b])
  }

  /** The document published for a state. */
  function Encode(identity: Identity, s: State): Document {
    Document(SCHEMA, identity, CutRows(s.cuts), CheckpointRows(s.checkpoints))
  }

  lemma CutRowsRead(identity: Identity, cuts: map<nat, WorldCut>)
    requires forall n | n in cuts :: n < identity.repetitions
    ensures NumberedRows.Readable(ParseInt, identity.repetitions, CutRows(cuts))
    ensures NumberedRows.Values(ParseInt, identity.repetitions, CutRows(cuts)) == cuts
  {
    assert NumberedRows.ReadsBack(ParseInt, Decimal) by {
      forall n: nat ensures ParseInt(Decimal(n)) == Some(n) { ParseDecimal(n); }
    }
    assert NumberedRows.PrintsOf(Decimal, cuts, CutRows(cuts));
    NumberedRows.PrintedRowsRead(ParseInt, Decimal, identity.repetitions, cuts, CutRows(cuts));
  }

  lemma BranchIdsAreNotBlank(identity: Identity, branchId: string)
    requires BranchRepetition(identity, branchId).Some?
    ensures !Blank(branchId)
  {
    assert branchId[|identity.runId|] == ':';
    StripKeepsColons(branchId);
  }

  /** Reopening any published document under the same identity gives back its state. */
  lemma ReopenGivesBack(identity: Identity, s: State)
    requires Joined(identity, s)
    ensures Readable(identity, Parsed(Encode(identity, s)))
    ensures StateRead(identity, Parsed(Encode(identity, s))) == s
  {
    CutRowsRead(identity, s.cuts);
    CheckpointRowsRead(identity, s);
  }

  lemma CheckpointRowsRead(identity: Identity, s: State)
    requires Joined(identity, s)
    ensures CheckpointsReadable(identity, CheckpointRows(s.checkpoints))
    ensures CheckpointsRead(identity, CheckpointRows(s.checkpoints)) == s.checkpoints
  {
    var rows := CheckpointRows(s.checkpoints);
    forall b | b in rows ensures CheckpointRow(identity, b, rows[b]) {
      assert HasCut(identity, s.cuts, b);
      BranchIdsAreNotBlank(identity, b);
    }
    assert CheckpointsRead(identity, rows) == s.checkpoints;
  }

  // ---- Publications ----

  /** How a durable write ends: it may also raise, before or after the new document
      became the durable one. */
  datatype Fate = Completes | RaisesBefore | RaisesAfter

  /** The state a source cut would commit; none when it is refused. */
  function CandidateCut(identity: Identity, s: State, repetition: int, cut: WorldCut): Option<State> {
    if repetition < 0 || repetition >= identity.repetitions then None
    else if repetition in s.cuts && s.cuts[repetition] != cut then None
    else Some(State(s.cuts[repetition := cut], s.checkpoints))
  }

  predicate ForIdentity(identity: Identity, m: Manifest) {
    && m.runId == identity.runId && m.studyId == identity.studyId
    && m.taskManifestDigest == identity.taskManifestDigest
  }

  /** The state a checkpoint would commit; none when it is refused. A manifest with a
      blank checkpoint id cannot be built. */
  function CandidateCheckpoint(identity: Identity, s: State, m: Manifest): Option<State> {
    if !ForIdentity(identity, m) || Blank(m.checkpointId) then None
    else
      match BranchRepetition(identity, m.branchId)
      case None => None
      case Some(n) =>
        if n !in s.cuts || s.cuts[n].cutId != m.sourceCutId then None
        else Some(State(s.cuts, s.checkpoints[m.branchId := m.checkpointId]))
  }

  /** A source cut is accepted exactly for a repetition of the study that has none or that
      one, and adds it and nothing else. */
  lemma CutAcceptedExactly(identity: Identity, s: State, repetition: int, cut: WorldCut)
    ensures CandidateCut(identity, s, repetition, cut).Some? <==>
            0 <= repetition < identity.repetitions && (repetition in s.cuts ==> s.cuts[repetition] == cut)
    ensures CandidateCut(identity, s, repetition, cut).Some? ==>
              CandidateCut(identity, s, repetition, cut).value == State(s.cuts[repetition := cut], s.checkpoints)
  {
  }

  /** A checkpoint is accepted exactly from a manifest of this run, study and task manifest,
      with an id, for a branch of the study whose repetition has the manifest's source
      cut; it becomes the branch's checkpoint, and nothing else changes. */
  lemma CheckpointAcceptedExactly(identity: Identity, s: State, m: Manifest)
    ensures CandidateCheckpoint(identity, s, m).Some? <==>
            && m.runId == identity.runId && m.studyId == identity.studyId
            && m.taskManifestDigest == identity.taskManifestDigest && !Blank(m.checkpointId)
            && exists role, number, variant, n: nat ::
                 IsBranch(identity, m.branchId, role, number, variant, n)
                 && n in s.cuts && s.cuts[n].cutId == m.sourceCutId
    ensures CandidateCheckpoint(identity, s, m).Some? ==>
              CandidateCheckpoint(identity, s, m).value ==
              State(s.cuts, s.checkpoints[m.branchId := m.checkpointId])
  {
    if BranchRepetition(identity, m.branchId).Some? {
      BranchExact(identity, m.branchId, BranchRepetition(identity, m.branchId).value);
    }
    forall role, number, variant, n: nat | IsBranch(identity, m.branchId, role, number, variant, n)
      ensures BranchRepetition(identity, m.branchId) == Some(n)
    {
      BranchParses(identity, m.branchId, role, number, variant, n);
    }
  }

  /** What an accepted document holds: this schema and identity, a cut in range under each
      of its row names, and for every pointer a declared branch with a cut. */
  lemma LoadedMeans(identity: Identity, document: Document)
    requires Loaded(identity, Some(Parsed(document))).Some?
    ensures document.schema == "sem-paper.minecraft-resume-index.v1" && document.identity == identity
    ensures var s := Loaded(identity, Some(Parsed(document))).value;
            && (forall name | name in document.cuts ::
                  var n := ParseInt(name);
                  && n.Some? && 0 <= n.value < identity.repetitions && document.cuts[name].Some?
                  && n.value in s.cuts && s.cuts[n.value] == document.cuts[name].value)
            && (forall n | n in s.cuts :: exists name | name in document.cuts :: ParseInt(name) == Some(n))
            && s.checkpoints.Keys == document.checkpoints.Keys
            && (forall b | b in s.checkpoints ::
                  Some(s.checkpoints[b]) == document.checkpoints[b] && HasCut(identity, s.cuts, b))
  {
    var rows, s := document.cuts, Loaded(identity, Some(Parsed(document))).value;
    forall name | name in rows ensures Loads(identity, document, s, name) {
      var n: nat := ParseInt(name).value;
      assert NumberedRows.Row(ParseInt, identity.repetitions, name, rows[name]);
      assert NumberedRows.Names(ParseInt, name, n);
    }
    forall n | n in s.cuts ensures exists name | name in rows :: ParseInt(name) == Some(n) {
      var name := NumberedRows.RowFor(ParseInt, rows, n);
      assert NumberedRows.Names(ParseInt, name, n);
    }
  }

  ghost predicate Loads(identity: Identity, document: Document, s: State, name: string)
    requires name in document.cuts
  {
    var n := ParseInt(name);
    && n.Some? && 0 <= n.value < identity.repetitions && document.cuts[name].Some?
    && n.value in s.cuts && s.cuts[n.value] == document.cuts[name].value
  }

  /** The durable document and the memory of a running index. */
  datatype World = World(disk: Option<Document>, memory: Option<State>)

  function Publish(identity: Identity, w: World, candidate: Option<State>, fate: Fate): World {
    if w.memory.None? || candidate.None? then w
    else
      World(if fate.RaisesBefore? then w.disk else Some(Encode(identity, candidate.value)),
            if fate.Completes? then candidate else w.memory)
  }

  datatype Outcome = Done | Rejected | WriteRaised

  function OutcomeOf(candidate: Option<State>, fate: Fate): Outcome {
    if candidate.None? then Rejected else if fate.Completes? then Done else WriteRaised
  }

  class ResumeArtifacts {
    var document: Option<Document>

    method PublishJson(payload: Document, fate: Fate) returns (raised: bool)
      modifies this
      ensures raised <==> !fate.Completes?
      ensures document == if fate.RaisesBefore? then old(document) else Some(payload)
    {
      if fate.RaisesBefore? { return true; }
      document := Some(payload);
      raised := fate.RaisesAfter?;
    }
  }

  class MinecraftResumeIndex {
    const artifacts: ResumeArtifacts
    const identity: Identity
    var sourceCuts: map<nat, WorldCut>
    var branchCheckpoints: map<string, string>

    constructor (artifacts: ResumeArtifacts, identity: Identity, cuts: map<nat, WorldCut>,
                 checkpoints: map<string, string>)
      ensures this.artifacts == artifacts && this.identity == identity
      ensures sourceCuts == cuts && branchCheckpoints == checkpoints
    {
      this.artifacts := artifacts;
      this.identity := identity;
      sourceCuts := cuts;
      branchCheckpoints := checkpoints;
    }

    function Memory(): State
      reads this
    {
      State(sourceCuts, branchCheckpoints)
    }

    function Now(): World
      reads this, artifacts
    {
      World(artifacts.document, Some(Memory()))
    }

    method Persist(fate: Fate) returns (raised: bool)
      modifies artifacts
      ensures Now() == old(Publish(identity, Now(), Some(Memory()), fate))
      ensures raised <==> !fate.Completes?
    {
      raised := artifacts.PublishJson(Encode(identity, Memory()), fate);
    }

    method SourceCutPublished(repetition: int, cut: WorldCut, fate: Fate) returns (outcome: Outcome)
      modifies this, artifacts
      ensures Now() == old(Publish(identity, Now(), CandidateCut(identity, Memory(), repetition, cut), fate))
      ensures outcome == old(OutcomeOf(CandidateCut(identity, Memory(), repetition, cut), fate))
    {
      if repetition < 0 || repetition >= identity.repetitions { return Rejected; }
      if repetition in sourceCuts && sourceCuts[repetition] != cut { return Rejected; }
      var candidate := sourceCuts[repetition := cut];
      var raised := artifacts.PublishJson(Encode(identity, State(candidate, branchCheckpoints)), fate);
      if raised { return WriteRaised; }
      sourceCuts := candidate;
      return Done;
    }

    method Published(manifest: Manifest, fate: Fate) returns (outcome: Outcome)
      requires !Blank(manifest.checkpointId)
      modifies this, artifacts
      ensures Now() == old(Publish(identity, Now(), CandidateCheckpoint(identity, Memory(), manifest), fate))
      ensures outcome == old(OutcomeOf(CandidateCheckpoint(identity, Memory(), manifest), fate))
    {
      if !ForIdentity(identity, manifest) { return Rejected; }
      var repetition := BranchRepetition(identity, manifest.branchId);
      if repetition.None? { return Rejected; }
      if repetition.value !in sourceCuts || sourceCuts[repetition.value].cutId != manifest.sourceCutId {
        return Rejected;
      }
      var candidate := branchCheckpoints[manifest.branchId := manifest.checkpointId];
      var raised := artifacts.PublishJson(Encode(identity, State(sourceCuts, candidate)), fate);
      if raised { return WriteRaised; }
      branchCheckpoints := candidate;
      return Done;
    }
  }

  // ---- Opening ----

  method ReadCheckpoints(identity: Identity, rows: map<string, Option<string>>)
    returns (checkpoints: Option<map<string, string>>)
    ensures checkpoints.Some? <==> CheckpointsReadable(identity, rows)
    ensures checkpoints.Some? ==> checkpoints.value == CheckpointsRead(identity, rows)
  {
    var read: map<string, string>, remaining := map[], rows.Keys;
    while remaining != {}
      invariant remaining <= rows.Keys && read.Keys == rows.Keys - remaining
      invariant forall b | b in read :: CheckpointRow(identity, b, rows[b]) && read[b] == rows[b].value
      decreases remaining
    {
      var branchId :| branchId in remaining;
      var row := rows[branchId];
      if Blank(branchId) || row.None? || Blank(row.value) { return None; }
      if BranchRepetition(identity, branchId).None? { return None; }
      read := read[branchId := row.value];
      remaining := remaining - {branchId};
    }
    return Some(read);
  }

  /** None stands for any of the errors that become the configuration error. */
  method ReadState(identity: Identity, file: File) returns (state: Option<State>)
    ensures state == if Readable(identity, file) then Some(StateRead(identity, file)) else None
  {
    if file.Malformed? { return None; }
    var document := file.document;
    if document.schema != SCHEMA || document.identity != identity { return None; }
    var cuts := NumberedRows.Read(ParseInt, identity.repetitions, document.cuts);
    if cuts.None? { return None; }
    var checkpoints := ReadCheckpoints(identity, document.checkpoints);
    if checkpoints.None? { return None; }
    if exists b | b in checkpoints.value.Keys :: BranchRepetition(identity, b).value !in cuts.value { return None; }
    return Some(State(cuts.value, checkpoints.value));
  }

  /** Null stands for the configuration error. */
  method Open(artifacts: ResumeArtifacts, identity: Identity, path: Option<File>) returns (index: MinecraftResumeIndex?)
    ensures index == null <==> Loaded(identity, path).None?
    ensures index != null ==> fresh(index) && index.artifacts == artifacts && index.identity == identity
    ensures index != null ==> Some(index.Memory()) == Loaded(identity, path)
  {
    var state := Some(EMPTY);
    if path.Some? { state := ReadState(identity, path.value); }
    if state.None? { return null; }
    index := new MinecraftResumeIndex(artifacts, identity, state.value.cuts, state.value.checkpoints);
  }
}
