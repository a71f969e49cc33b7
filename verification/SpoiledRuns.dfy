/** Runs from the empty store that end with an unreadable log, one for each way an
    action can spoil it. */
module SpoiledRuns {
  import opened Characters
  import opened Options
  import opened WalText
  import opened SessionStore
  import opened SessionProtocol
  import opened LawfulCodec

  /** A first write of handle 0, up to its journal step. */
  function FirstWrite(payload: string, walMax: nat): seq<Action> {
    [Open(0), Begin(0, payload, walMax), Proceed]
  }

  function AtJournal(payload: string, walMax: nat): System {
    EMPTY.(handles := map[0 := Unread],
           writer := Some(Writer(0, Nothing, Envelope(1, payload), walMax, Journal)))
  }

  lemma FirstWriteAtJournal(c: Codec, payload: string, walMax: nat)
    requires walMax > 0
    ensures Run(c, FirstWrite(payload, walMax)) == AtJournal(payload, walMax)
  {
    RunSnoc(c, [], Open(0));
    RunSnoc(c, [] + [Open(0)], Begin(0, payload, walMax));
    RunSnoc(c, [] + [Open(0)] + [Begin(0, payload, walMax)], Proceed);
    assert FirstWrite(payload, walMax) == [] + [Open(0)] + [Begin(0, payload, walMax)] + [Proceed];
    assert Choose(c, []) == Nothing;
  }

  ghost predicate EndsUnreadable(c: Codec, actions: seq<Action>) {
    !Readable(c, Run(c, actions))
  }

  lemma SpoiledLast(c: Codec, actions: seq<Action>, a: Action)
    requires Lawful(c) && Spoils(c, Run(c, actions), a)
    ensures EndsUnreadable(c, actions + [a])
  {
    RunSound(c, actions);
    RunSnoc(c, actions, a);
    ReadableExact(c, Run(c, actions), a);
  }

  /** A payload that no read accepts is written with success and ends the session. */
  lemma RefusedPayloadSpoils(c: Codec, payload: string, walMax: nat)
    requires Lawful(c) && walMax > 0 && !c.accepts(payload)
    ensures EndsUnreadable(c, FirstWrite(payload, walMax) + [Proceed])
  {
    FirstWriteAtJournal(c, payload, walMax);
    SpoiledLast(c, FirstWrite(payload, walMax), Proceed);
  }

  /** So does a record with a line break inside. */
  lemma LineBreakSpoils(c: Codec, payload: string, walMax: nat)
    requires Lawful(c) && walMax > 0 && !NoBreak(c.encode(Envelope(1, payload)))
    ensures EndsUnreadable(c, FirstWrite(payload, walMax) + [Proceed])
  {
    FirstWriteAtJournal(c, payload, walMax);
    SpoiledLast(c, FirstWrite(payload, walMax), Proceed);
  }

  /** An append cut inside a multi-byte character ends the session. */
  lemma StrayByteSpoils(c: Codec, payload: string, walMax: nat, chars: nat, survives: bool)
    requires Lawful(c) && walMax > 0 && chars < |Line(c, Envelope(1, payload))|
    requires Utf8Width(Line(c, Envelope(1, payload))[chars]) > 1
    ensures EndsUnreadable(c, FirstWrite(payload, walMax) + [Tear(chars, 1, survives)])
  {
    FirstWriteAtJournal(c, payload, walMax);
    SpoiledLast(c, FirstWrite(payload, walMax), Tear(chars, 1, survives));
  }

  /** A write that is cut after one character and retried by the same handle, whatever
      the payload. */
  function RetriedWrite(payload: string, walMax: nat): seq<Action> {
    FirstWrite(payload, walMax) + [Tear(1, 0, true)] + [Begin(0, payload, walMax)] + [Proceed]
  }

  function AfterTear(c: Codec, payload: string): System
    requires |Line(c, Envelope(1, payload))| > 1
  {
    EMPTY.(handles := map[0 := Unread], disk := EMPTY.disk.(wal := Utf8(Line(c, Envelope(1, payload))[..1])))
  }

  lemma LineOpens(c: Codec, e: Envelope)
    requires Lawful(c)
    ensures |Line(c, e)| > 1 && Line(c, e)[..1] == ['{'] && Utf8Width(Line(c, e)[1]) > 0
  {
    assert RecordShape(c.encode(e));
  }

  lemma FirstCharacterTorn(c: Codec, payload: string, walMax: nat)
    requires Lawful(c) && walMax > 0
    ensures |Line(c, Envelope(1, payload))| > 1
    ensures Run(c, FirstWrite(payload, walMax) + [Tear(1, 0, true)]) == AfterTear(c, payload)
  {
    LineOpens(c, Envelope(1, payload));
    FirstWriteAtJournal(c, payload, walMax);
    RunSnoc(c, FirstWrite(payload, walMax), Tear(1, 0, true));
  }

  lemma TornWriteLeaves(c: Codec, payload: string)
    requires Lawful(c) && |Line(c, Envelope(1, payload))| > 1
    ensures Latest(c, AfterTear(c, payload).disk) == Nothing
    ensures !JsonBlank(Tail(AfterTear(c, payload).disk.wal))
  {
    LineOpens(c, Envelope(1, payload));
    OpenBraceFindsNothing(c);
    assert "" + ['{'] == ['{'];
    BraceInTail("", ['{']);
  }

  lemma OpenBraceFindsNothing(c: Codec)
    ensures Latest(c, Disk(NoFile, NoFile, Utf8(['{']))) == Nothing
  {
    TearInvisible(c, "", ['{']);
    assert "" + ['{'] == ['{'];
    assert Choose(c, []) == Nothing;
  }

  lemma BeginOverNothing(c: Codec, s: System, payload: string, walMax: nat)
    requires 0 in s.handles && s.writer == None && walMax > 0 && Latest(c, s.disk) == Nothing
    ensures Apply(c, Apply(c, s, Begin(0, payload, walMax)), Proceed) ==
            s.(writer := Some(Writer(0, Nothing, Envelope(1, payload), walMax, Journal)))
  {
  }

  lemma RetryAtJournal(c: Codec, payload: string, walMax: nat)
    requires Lawful(c) && walMax > 0
    ensures |Line(c, Envelope(1, payload))| > 1
    ensures Run(c, RetriedWrite(payload, walMax)) ==
            AfterTear(c, payload).(writer := Some(Writer(0, Nothing, Envelope(1, payload), walMax, Journal)))
  {
    var torn := FirstWrite(payload, walMax) + [Tear(1, 0, true)];
    FirstCharacterTorn(c, payload, walMax);
    TornWriteLeaves(c, payload);
    RunSnoc(c, torn, Begin(0, payload, walMax));
    RunSnoc(c, torn + [Begin(0, payload, walMax)], Proceed);
    BeginOverNothing(c, AfterTear(c, payload), payload, walMax);
  }

  lemma SmallLogStays(c: Codec, e: Envelope, walMax: nat)
    requires Lawful(c) && walMax >= Size(Line(c, e)) + 1 && |Line(c, e)| > 1
    ensures !Rotates(c, Utf8(Line(c, e)[..1]), e, walMax)
  {
    assert RecordShape(c.encode(e));
    assert Line(c, e)[..1] == ['{'];
    assert Size(['{']) == Size("") + 1;
  }

  /** In every lawful format a retry after a torn first append reports success when it
      does not rotate the log, and leaves a session that no one can read. */
  lemma RetryAfterTearSpoils(c: Codec, payload: string, walMax: nat)
    requires Lawful(c) && walMax >= Size(Line(c, Envelope(1, payload))) + 1
    ensures EndsUnreadable(c, RetriedWrite(payload, walMax) + [Proceed])
  {
    RetryAtJournal(c, payload, walMax);
    TornWriteLeaves(c, payload);
    SmallLogStays(c, Envelope(1, payload), walMax);
    SpoiledLast(c, RetriedWrite(payload, walMax), Proceed);
  }

  /** The payload that is one line separator, in the sample format. */
  lemma SeparatorRecord(e: Envelope)
    requires e.payload == [SEPARATOR]
    ensures exists k :: 0 <= k < |Encode(e)| && Encode(e)[k] == SEPARATOR
  {
    var code := Unary(e.revision);
    assert Chars(e.payload) == [SEPARATOR] + Chars(e.payload[1..]);
    assert Encode(e)[1 + |code|] == Body(e)[|code|] == SEPARATOR;
  }

  lemma BreakFound(s: string, k: nat)
    requires k < |s| && IsBreak(s[k])
    ensures !NoBreak(s)
  {
    BreakEndExact(s);
  }

  ghost predicate RefusalHappens(c: Codec) {
    exists payload :: !c.accepts(payload) && EndsUnreadable(c, FirstWrite(payload, 1000) + [Proceed])
  }

  ghost predicate LineBreakHappens(c: Codec) {
    exists payload :: c.accepts(payload) && EndsUnreadable(c, FirstWrite(payload, 1000) + [Proceed])
  }

  ghost predicate StrayByteHappens(c: Codec) {
    exists payload, k :: c.accepts(payload) && EndsUnreadable(c, FirstWrite(payload, 1000) + [Tear(k, 1, true)])
  }

  ghost predicate RetryHappens(c: Codec) {
    exists payload, walMax :: c.accepts(payload) && EndsUnreadable(c, RetriedWrite(payload, walMax) + [Proceed])
  }

  lemma SampleRefuses()
    ensures RefusalHappens(Sample())
  {
    SampleIsLawful();
    assert !Sample().accepts("");
    RefusedPayloadSpoils(Sample(), "", 1000);
  }

  lemma SampleRetries(payload: string)
    requires payload != ""
    ensures RetryHappens(Sample())
  {
    SampleIsLawful();
    assert Sample().accepts(payload);
    RetryAfterTearSpoils(Sample(), payload, Size(Line(Sample(), Envelope(1, payload))) + 1);
  }

  lemma SampleSeparates()
    ensures LineBreakHappens(Sample()) && StrayByteHappens(Sample())
  {
    var c, payload := Sample(), [SEPARATOR];
    var e := Envelope(1, payload);
    SampleIsLawful();
    assert c.accepts(payload);
    SeparatorRecord(e);
    var k :| 0 <= k < |c.encode(e)| && c.encode(e)[k] == SEPARATOR;
    BreakFound(c.encode(e), k);
    LineBreakSpoils(c, payload, 1000);
    assert Line(c, e)[k] == SEPARATOR;
    StrayByteSpoils(c, payload, 1000, k, true);
  }

  /** No branch of the spoiling condition is empty: one lawful format has a run from the
      empty store for each of the four ways. */
  lemma EveryWayHappens()
    ensures exists c :: Lawful(c) && RefusalHappens(c) && LineBreakHappens(c) && StrayByteHappens(c) && RetryHappens(c)
  {
    SampleIsLawful();
    SampleRefuses();
    SampleRetries("x");
    SampleSeparates();
  }
}
