/** The durable session store: what it recovers from its three files, and its three
    operations on them. */
module SessionStore {
  import opened Options
  import opened WalText

  /** The primary or backup file. */
  datatype File = NoFile | Holds(text: string) | Unreadable

  datatype Disk = Disk(primary: File, backup: File, wal: WalFile)

  /** What the latest durable state is, when it can be told. */
  datatype Recovery = Failed | Nothing | Found(envelope: Envelope)

  /** The snapshot a handle last read or wrote. */
  datatype Seen = Unread | Seen(revision: nat, sha: string)

  function Candidate(c: Codec, f: File): seq<Envelope> {
    match f
    case Holds(text) => (match c.decode(text) case Some(e) => [e] case None => [])
    case _ => []
  }

  /** A snapshot file that is there and does not hold an envelope. */
  predicate Damaged(c: Codec, f: File) {
    f != NoFile && Candidate(c, f) == []
  }

  function Candidates(c: Codec, d: Disk, records: seq<Envelope>): seq<Envelope> {
    Candidate(c, d.primary) + Candidate(c, d.backup) + records
  }

  function MaxRevision(es: seq<Envelope>): nat {
    if es == [] then 0
    else
      var m, r := MaxRevision(es[..|es| - 1]), es[|es| - 1].revision;
      if r > m then r else m
  }

  function AtRevision(es: seq<Envelope>, r: nat): seq<Envelope> {
    if es == [] then []
    else AtRevision(es[..|es| - 1], r) + if es[|es| - 1].revision == r then [es[|es| - 1]] else []
  }

  predicate Agree(c: Codec, es: seq<Envelope>) {
    forall i | 0 <= i < |es| :: c.sha(es[i].payload) == c.sha(es[0].payload)
  }

  /** The choice among candidates: the last one of the highest revision, provided
      that all of that revision carry one digest. */
  function Choose(c: Codec, es: seq<Envelope>): Recovery {
    if es == [] then Nothing
    else
      var highest := AtRevision(es, MaxRevision(es));
      if highest != [] && Agree(c, highest) then Found(highest[|highest| - 1]) else Failed
  }

  /** The choice, said of the candidates alone. */
  ghost predicate Chosen(c: Codec, es: seq<Envelope>, r: Recovery) {
    match r
    case Nothing => es == []
    case Found(e) =>
      exists k :: 0 <= k < |es| && es[k] == e && IsNewest(es, k) && OneDigest(c, es, e)
    case Failed => exists j, k :: 0 <= j < |es| && 0 <= k < |es| && Conflict(c, es, j, k)
  }

  /** No other candidate has a higher revision, and no later one the same. */
  ghost predicate IsNewest(es: seq<Envelope>, k: nat)
    requires k < |es|
  {
    forall i | 0 <= i < |es| :: es[i].revision <= es[k].revision && (es[i].revision == es[k].revision ==> i <= k)
  }

  ghost predicate OneDigest(c: Codec, es: seq<Envelope>, e: Envelope) {
    forall i | 0 <= i < |es| && es[i].revision == e.revision :: c.sha(es[i].payload) == c.sha(e.payload)
  }

  /** Two candidates of the highest revision with different digests. */
  ghost predicate Conflict(c: Codec, es: seq<Envelope>, j: nat, k: nat)
    requires j < |es| && k < |es|
  {
    && es[j].revision == es[k].revision && c.sha(es[j].payload) != c.sha(es[k].payload)
    && forall i | 0 <= i < |es| :: es[i].revision <= es[k].revision
  }

  lemma {:induction false} MaxBounds(es: seq<Envelope>, i: nat)
    requires i < |es|
    ensures es[i].revision <= MaxRevision(es)
  {
    if i < |es| - 1 { MaxBounds(es[..|es| - 1], i); }
  }

  lemma {:induction false} MaxIsTaken(es: seq<Envelope>) returns (k: nat)
    requires es != []
    ensures k < |es| && es[k].revision == MaxRevision(es)
  {
    k := |es| - 1;
    if k == 0 {
      assert es[..k] == [];
    } else if es[k].revision < MaxRevision(es) {
      k := MaxIsTaken(es[..k]);
    }
  }

  /** Each candidate of the revision is among those picked. */
  lemma {:induction false} Picked(es: seq<Envelope>, r: nat, i: nat) returns (l: nat)
    requires i < |es| && es[i].revision == r
    ensures l < |AtRevision(es, r)| && AtRevision(es, r)[l] == es[i]
  {
    if i == |es| - 1 {
      l := |AtRevision(es, r)| - 1;
    } else {
      l := Picked(es[..|es| - 1], r, i);
    }
  }

  /** Each one picked is a candidate of the revision, and the last one the last. */
  lemma {:induction false} PickedFrom(es: seq<Envelope>, r: nat, l: nat) returns (i: nat)
    requires l < |AtRevision(es, r)|
    ensures i < |es| && es[i] == AtRevision(es, r)[l] && es[i].revision == r
    ensures l == |AtRevision(es, r)| - 1 ==> forall j | i < j < |es| :: es[j].revision != r
  {
    var n := |es| - 1;
    var before := AtRevision(es[..n], r);
    if l == |before| {
      i := n;
    } else {
      i := PickedFrom(es[..n], r, l);
      assert forall j | 0 <= j < n :: es[..n][j] == es[j];
    }
  }

  lemma AgreedChoice(c: Codec, es: seq<Envelope>)
    requires var highest := AtRevision(es, MaxRevision(es)); es != [] && highest != [] && Agree(c, highest)
    ensures Chosen(c, es, Choose(c, es))
  {
    var top := MaxRevision(es);
    var highest := AtRevision(es, top);
    var k := PickedFrom(es, top, |highest| - 1);
    forall i | 0 <= i < |es| ensures es[i].revision <= top { MaxBounds(es, i); }
    assert IsNewest(es, k);
    forall i | 0 <= i < |es| && es[i].revision == top ensures c.sha(es[i].payload) == c.sha(es[k].payload) {
      var l := Picked(es, top, i);
      assert c.sha(highest[l].payload) == c.sha(highest[0].payload);
    }
    assert OneDigest(c, es, es[k]);
  }

  lemma SplitChoice(c: Codec, es: seq<Envelope>)
    requires var highest := AtRevision(es, MaxRevision(es)); highest != [] && !Agree(c, highest)
    ensures Chosen(c, es, Failed)
  {
    var top := MaxRevision(es);
    var highest := AtRevision(es, top);
    var l :| 0 <= l < |highest| && c.sha(highest[l].payload) != c.sha(highest[0].payload);
    var j := PickedFrom(es, top, l);
    var k := PickedFrom(es, top, 0);
    forall i | 0 <= i < |es| ensures es[i].revision <= top { MaxBounds(es, i); }
    assert Conflict(c, es, j, k);
  }

  /** Fails exactly when two candidates of the highest revision have different digests,
      and otherwise takes the last candidate of that revision. */
  lemma ChooseExact(c: Codec, es: seq<Envelope>)
    ensures Chosen(c, es, Choose(c, es))
  {
    if es != [] {
      var k := MaxIsTaken(es);
      var l := Picked(es, MaxRevision(es), k);
      if Agree(c, AtRevision(es, MaxRevision(es))) { AgreedChoice(c, es); } else { SplitChoice(c, es); }
    }
  }

  /** Recovery: an unreadable log fails closed, damaged snapshot files do not count,
      unless there is nothing else. */
  function Latest(c: Codec, d: Disk): Recovery {
    match ReadWal(c, d.wal)
    case None => Failed
    case Some(records) =>
      var es := Candidates(c, d, records);
      if es == [] && (Damaged(c, d.primary) || Damaged(c, d.backup)) then Failed else Choose(c, es)
  }

  /** With nothing readable left, a damaged snapshot fails closed and only an empty
      directory, or one with a log of no complete record, is a fresh start. */
  lemma NothingReadable(c: Codec, d: Disk)
    requires ReadWal(c, d.wal) == Some([]) && Candidate(c, d.primary) == [] && Candidate(c, d.backup) == []
    ensures Latest(c, d) == if d.primary == NoFile && d.backup == NoFile then Nothing else Failed
  {
  }

  function SeenOf(c: Codec, e: Envelope): Seen {
    Seen(e.revision, c.sha(e.payload))
  }

  /** The compare-and-swap: a handle may write over nothing, or over exactly the
      snapshot it last saw. */
  predicate MayWrite(c: Codec, d: Disk, seen: Seen) {
    match Latest(c, d)
    case Failed => false
    case Nothing => true
    case Found(e) => seen == SeenOf(c, e)
  }

  /** What a handle saw names one envelope: a handle may write over a snapshot exactly
      when it saw that one. */
  lemma SeenIdentifies(c: Codec, d: Disk, e: Envelope)
    requires Lawful(c) && Latest(c, d).Found?
    ensures MayWrite(c, d, SeenOf(c, e)) <==> Latest(c, d) == Found(e)
    ensures !MayWrite(c, d, Unread)
  {
  }

  /** Over nothing every handle may write, and over a log that cannot be read none. */
  lemma WithoutSnapshot(c: Codec, d: Disk, seen: Seen)
    ensures Latest(c, d) == Nothing ==> MayWrite(c, d, seen)
    ensures Latest(c, d) == Failed ==> !MayWrite(c, d, seen)
  {
  }

  function NextEnvelope(c: Codec, d: Disk, payload: string): Envelope {
    Envelope(if Latest(c, d).Found? then Latest(c, d).envelope.revision + 1 else 1, payload)
  }

  function Line(c: Codec, e: Envelope): string {
    c.encode(e) + "\n"
  }

  /** The log is replaced instead of extended once the record would overflow it. */
  predicate Rotates(c: Codec, wal: WalFile, e: Envelope, walMax: nat) {
    wal != NoWal && wal.Bytes() + Size(Line(c, e)) > walMax
  }

  function AfterJournal(c: Codec, wal: WalFile, e: Envelope, walMax: nat): WalFile {
    if Rotates(c, wal, e, walMax) then Utf8(Line(c, e)) else wal.Append(Line(c, e))
  }

  lemma {:induction false} SizeConcat(a: string, b: string)
    ensures Size(a + b) == Size(a) + Size(b)
  {
    if b == "" {
      assert a + b == a;
    } else {
      SizeConcat(a, b[..|b| - 1]);
      assert (a + b)[..|a + b| - 1] == a + b[..|b| - 1];
    }
  }

  /** The log never outgrows its limit, but by a record that alone is larger; and while
      there is room nothing of it is dropped. */
  lemma LogStaysBounded(c: Codec, wal: WalFile, e: Envelope, walMax: nat)
    ensures AfterJournal(c, wal, e, walMax).Bytes() <= walMax
            || AfterJournal(c, wal, e, walMax) == Utf8(Line(c, e))
    ensures wal.Bytes() + Size(Line(c, e)) <= walMax ==> AfterJournal(c, wal, e, walMax) == wal.Append(Line(c, e))
  {
    if wal.Utf8? { SizeConcat(wal.text, Line(c, e)); }
  }

  /** The disk after a write that nothing interrupts. */
  function AfterWrite(c: Codec, d: Disk, payload: string, walMax: nat): Disk {
    var e := NextEnvelope(c, d, payload);
    Disk(Holds(c.encode(e)),
         if Latest(c, d).Found? then Holds(c.encode(Latest(c, d).envelope)) else d.backup,
         AfterJournal(c, d.wal, e, walMax))
  }

  /** The line loop of the log reader. */
  method ReadRecords(c: Codec, wal: WalFile) returns (r: Option<seq<Envelope>>)
    ensures r == ReadWal(c, wal)
  {
    match wal {
      case NoWal => return Some([]);
      case NotUtf8(_) => return None;
      case Utf8(text) =>
        var lines := SplitLines(text);
        var records: seq<Envelope> := [];
        for i := 0 to |lines|
          invariant DecodeLines(c, lines[..i]) == Some(records)
        {
          assert lines[..i + 1] == lines[..i] + [lines[i]];
          DecodeSnoc(c, lines[..i], lines[i]);
          if Blank(lines[i]) || lines[i] == "" || lines[i][|lines[i]| - 1] != '\n' {
            continue;
          }
          match c.decode(lines[i]) {
            case None =>
              StaysCorrupt(c, lines, i + 1);
              return None;
            case Some(e) => records := records + [e];
          }
        }
        assert lines[..|lines|] == lines;
        return Some(records);
    }
  }

  lemma {:induction false} StaysCorrupt(c: Codec, lines: seq<string>, i: nat)
    requires i <= |lines| && DecodeLines(c, lines[..i]) == None
    ensures DecodeLines(c, lines) == None
    decreases |lines| - i
  {
    if i == |lines| {
      assert lines[..i] == lines;
    } else {
      assert lines[..i + 1] == lines[..i] + [lines[i]];
      DecodeSnoc(c, lines[..i], lines[i]);
      StaysCorrupt(c, lines, i + 1);
    }
  }

  /** The selection among the collected candidates. */
  method PickLatest(c: Codec, es: seq<Envelope>) returns (r: Recovery)
    ensures r == Choose(c, es)
  {
    if es == [] { return Nothing; }
    var max := 0;
    for i := 0 to |es|
      invariant max == MaxRevision(es[..i])
    {
      assert es[..i + 1][..i] == es[..i];
      if es[i].revision > max { max := es[i].revision; }
    }
    var highest: seq<Envelope> := [];
    for i := 0 to |es|
      invariant highest == AtRevision(es[..i], max)
    {
      assert es[..i + 1][..i] == es[..i];
      if es[i].revision == max { highest := highest + [es[i]]; }
    }
    assert es[..|es|] == es;
    if highest != [] && Agree(c, highest) {
      return Found(highest[|highest| - 1]);
    }
    return Failed;
  }

  /** The files of one session, shared by every handle on it. */
  class SessionFiles {
    var primary: File
    var backup: File
    var wal: WalFile

    constructor ()
      ensures Contents() == Disk(NoFile, NoFile, NoWal)
    {
      primary, backup, wal := NoFile, NoFile, NoWal;
    }

    function Contents(): Disk
      reads this
    {
      Disk(primary, backup, wal)
    }
  }

  class FileSEMSessionStateStore {
    const codec: Codec
    const files: SessionFiles
    const walMax: nat
    var observed: Seen

    constructor (codec: Codec, files: SessionFiles, walMax: nat)
      ensures this.codec == codec && this.files == files && this.walMax == walMax
      ensures observed == Unread
    {
      this.codec, this.files, this.walMax := codec, files, walMax;
      observed := Unread;
    }

    /** Collects the candidates and picks the latest. */
    method Recover() returns (r: Recovery)
      ensures r == Latest(codec, files.Contents())
    {
      var es := Candidate(codec, files.primary);
      es := es + Candidate(codec, files.backup);
      var damaged := Damaged(codec, files.primary) || Damaged(codec, files.backup);
      var records := ReadRecords(codec, files.wal);
      if records == None { return Failed; }
      es := es + records.value;
      if es == [] && damaged { return Failed; }
      r := PickLatest(codec, es);
    }

    /** Writes nothing and fails unless this handle saw the latest snapshot. */
    method Write(payload: string) returns (ok: bool)
      modifies this`observed, files
      ensures ok == MayWrite(codec, old(files.Contents()), old(observed))
      ensures !ok ==> files.Contents() == old(files.Contents()) && observed == old(observed)
      ensures ok ==> files.Contents() == AfterWrite(codec, old(files.Contents()), payload, walMax)
                     && observed == SeenOf(codec, NextEnvelope(codec, old(files.Contents()), payload))
      ensures ok ==> files.primary == Holds(codec.encode(Envelope(observed.revision, payload)))
                     && observed == Seen(observed.revision, codec.sha(payload))
    {
      var current := Recover();
      var revision: nat := 1;
      match current {
        case Failed => return false;
        case Nothing =>
        case Found(e) =>
          if observed != SeenOf(codec, e) { return false; }
          revision := e.revision + 1;
          files.backup := Holds(codec.encode(e));
      }
      var next := Envelope(revision, payload);
      if Rotates(codec, files.wal, next, walMax) {
        files.wal := Utf8(Line(codec, next));
      } else {
        files.wal := files.wal.Append(Line(codec, next));
      }
      files.primary := Holds(codec.encode(next));
      observed := SeenOf(codec, next);
      return true;
    }

    method Read() returns (r: Recovery)
      modifies this`observed
      ensures r == Latest(codec, files.Contents())
      ensures observed == if r.Found? then SeenOf(codec, r.envelope) else old(observed)
    {
      r := Recover();
      if r.Found? { observed := SeenOf(codec, r.envelope); }
    }

    method RepairPrimary() returns (r: Recovery)
      modifies this`observed, files`primary
      ensures r == Latest(codec, old(files.Contents()))
      ensures r.Found? ==> observed == SeenOf(codec, r.envelope)
                           && files.Contents() == old(files.Contents()).(primary := Holds(codec.encode(r.envelope)))
      ensures !r.Found? ==> files.Contents() == old(files.Contents()) && observed == old(observed)
    {
      r := Recover();
      if r.Found? {
        files.primary := Holds(codec.encode(r.envelope));
        observed := SeenOf(codec, r.envelope);
      }
    }
  }
}
