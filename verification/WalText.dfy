/** The text of the write-ahead log: how Python splits it into lines, which lines it
    takes for records, and what an append does to what is read back. */
module WalText {
  import opened Characters
  import opened Options
  import opened Sequences

  /** One durable snapshot: its revision and its canonical JSON document. */
  datatype Envelope = Envelope(revision: nat, payload: string)

  /** JSON, SHA-256 and the checks of a decoded document, as far as the store depends on
      them.  A write does not run the checks: it may append a payload that no read
      accepts. */
  datatype Codec = Codec(
    encode: Envelope -> string,
    decode: string -> Option<Envelope>,
    accepts: string -> bool,
    sha: string -> string)

  predicate Blank(line: string) {
    forall i | 0 <= i < |line| :: IsSpace(line[i])
  }

  predicate JsonBlank(s: string) {
    forall i | 0 <= i < |s| :: s[i] == ' ' || s[i] == '\t' || s[i] == '\n' || s[i] == '\r'
  }

  /** The position after the last line break of `s`, zero when it has none. */
  function BreakEnd(s: string): (k: nat)
    ensures k <= |s|
  {
    if s == "" then 0 else if IsBreak(s[|s| - 1]) then |s| else BreakEnd(s[..|s| - 1])
  }

  predicate NoBreak(s: string) {
    BreakEnd(s) == 0
  }

  lemma {:induction false} BreakEndExact(s: string)
    ensures BreakEnd(s) > 0 ==> IsBreak(s[BreakEnd(s) - 1])
    ensures forall i | BreakEnd(s) <= i < |s| :: !IsBreak(s[i])
  {
    if s != "" && !IsBreak(s[|s| - 1]) { BreakEndExact(s[..|s| - 1]); }
  }

  function Utf8Width(c: char): nat {
    if c as int < 0x80 then 1 else if c as int < 0x800 then 2 else if c as int < 0x10000 then 3 else 4
  }

  /** The bytes of a character in UTF-8: a lead byte that tells their number, and six bits
      in each of the others. */
  function Utf8Bytes(c: char): seq<int> {
    var n := c as int;
    if n < 0x80 then [n]
    else if n < 0x800 then [0xC0 + n / 0x40, 0x80 + n % 0x40]
    else if n < 0x1_0000 then [0xE0 + n / 0x1000, 0x80 + n / 0x40 % 0x40, 0x80 + n % 0x40]
    else [0xF0 + n / 0x4_0000, 0x80 + n / 0x1000 % 0x40, 0x80 + n / 0x40 % 0x40, 0x80 + n % 0x40]
  }

  function Utf8Value(bytes: seq<int>): int {
    if |bytes| == 1 then bytes[0]
    else if |bytes| == 2 then (bytes[0] - 0xC0) * 0x40 + (bytes[1] - 0x80)
    else if |bytes| == 3 then (bytes[0] - 0xE0) * 0x1000 + (bytes[1] - 0x80) * 0x40 + (bytes[2] - 0x80)
    else if |bytes| == 4 then
      (bytes[0] - 0xF0) * 0x4_0000 + (bytes[1] - 0x80) * 0x1000 + (bytes[2] - 0x80) * 0x40 + (bytes[3] - 0x80)
    else 0
  }

  /** The width is the number of bytes of the encoding, which tells the characters apart. */
  lemma WidthIsUtf8(c: char)
    ensures |Utf8Bytes(c)| == Utf8Width(c) && Utf8Value(Utf8Bytes(c)) == c as int
    ensures forall i | 0 < i < |Utf8Bytes(c)| :: 0x80 <= Utf8Bytes(c)[i] < 0xC0
    ensures Utf8Bytes(c)[0] < 0xF8 && !(0x80 <= Utf8Bytes(c)[0] < 0xC0)
  {
    SixBits(c as int);
    SixBits(c as int / 0x40);
    SixBits(c as int / 0x1000);
  }

  lemma SixBits(n: nat)
    ensures n / 0x40 * 0x40 + n % 0x40 == n
    ensures n / 0x40 / 0x40 == n / 0x1000 && n / 0x1000 / 0x40 == n / 0x4_0000
  {
  }

  /** The size in bytes of a text in a file. */
  function Size(s: string): nat {
    if s == "" then 0 else Size(s[..|s| - 1]) + Utf8Width(s[|s| - 1])
  }

  /** What the store relies on from JSON and SHA-256:
      a record is one JSON object and control characters in it are escaped;
      it reads back as its envelope, with JSON white space before or after it, provided
      that the payload is accepted;
      anything else before it on the same line is a syntax error;
      what follows a line break inside it (U+0085, U+2028 and U+2029 are not escaped)
      starts in the middle of a string and does not parse;
      and the digest separates payloads. */
  ghost predicate Lawful(c: Codec) {
    && (forall e :: RecordShape(c.encode(e)))
    && (forall e :: c.decode(c.encode(e)) == if c.accepts(e.payload) then Some(e) else None)
    && (forall p, e :: PrecededLaw(c, p, e))
    && (forall e, k: nat :: RemainderLaw(c, e, k))
    && (forall a, b :: c.sha(a) == c.sha(b) ==> a == b)
  }

  ghost predicate PrecededLaw(c: Codec, p: string, e: Envelope) {
    c.decode(p + c.encode(e) + "\n") == if JsonBlank(p) && c.accepts(e.payload) then Some(e) else None
  }

  ghost predicate RemainderLaw(c: Codec, e: Envelope, k: nat) {
    0 < k <= |c.encode(e)| && IsBreak(c.encode(e)[k - 1]) ==> c.decode(c.encode(e)[k..] + "\n") == None
  }

  ghost predicate RecordShape(record: string) {
    && |record| >= 2 && record[0] == '{' && record[|record| - 1] == '}'
    && forall i | 0 <= i < |record| :: record[i] >= ' '
  }

  predicate EndsLine(line: string) {
    line != "" && IsBreak(line[|line| - 1])
  }

  /** The unfinished line at the end of a text. */
  function LastPiece(t: string): string {
    if t == "" || IsBreak(t[|t| - 1]) then "" else LastPiece(t[..|t| - 1]) + [t[|t| - 1]]
  }

  /** str.splitlines(keepends=True): each character extends the unfinished line or
      starts a new one. */
  function SplitLines(t: string): (lines: seq<string>)
    ensures LastPiece(t) != "" ==> lines != [] && lines[|lines| - 1] == LastPiece(t)
  {
    if t == "" then []
    else
      var lines, piece, c := SplitLines(t[..|t| - 1]), LastPiece(t[..|t| - 1]), t[|t| - 1];
      if piece == "" then lines + [[c]] else lines[..|lines| - 1] + [piece + [c]]
  }

  function Join(lines: seq<string>): string {
    if lines == [] then "" else Join(lines[..|lines| - 1]) + lines[|lines| - 1]
  }

  lemma JoinSnoc(lines: seq<string>, line: string)
    ensures Join(lines + [line]) == Join(lines) + line
  {
    assert (lines + [line])[..|lines|] == lines;
  }

  /** A line: not empty, with a line break at the end at most. */
  ghost predicate IsLine(line: string) {
    line != "" && NoBreak(line[..|line| - 1])
  }

  lemma {:induction false} LastPieceNoBreak(t: string)
    ensures NoBreak(LastPiece(t))
  {
    if t != "" && !IsBreak(t[|t| - 1]) { LastPieceNoBreak(t[..|t| - 1]); }
  }

  lemma JoinGrows(lines: seq<string>, piece: string, c: char)
    requires lines != [] && lines[|lines| - 1] == piece
    ensures Join(lines[..|lines| - 1] + [piece + [c]]) == Join(lines) + [c]
  {
    var kept := lines[..|lines| - 1];
    JoinSnoc(kept, piece + [c]);
    Associative(Join(kept), piece, [c]);
  }

  lemma SplitJoinSnoc(t: string, c: char)
    requires Join(SplitLines(t)) == t
    ensures Join(SplitLines(t + [c])) == t + [c]
  {
    SplitSnoc(t, c);
    if LastPiece(t) == "" {
      JoinSnoc(SplitLines(t), [c]);
    } else {
      JoinGrows(SplitLines(t), LastPiece(t), c);
    }
  }

  /** The lines in order make up the text. */
  lemma {:induction false} SplitLinesJoin(t: string)
    ensures Join(SplitLines(t)) == t
  {
    if t != "" {
      var front, last := t[..|t| - 1], t[|t| - 1];
      SplitLinesJoin(front);
      SplitJoinSnoc(front, last);
      Unsnoc(t);
    }
  }

  /** A line break stands exactly at the end of every line but possibly the last. */
  ghost predicate LinesOf(lines: seq<string>, piece: string) {
    && (forall i | 0 <= i < |lines| :: IsLine(lines[i]))
    && (forall i | 0 <= i < |lines| - 1 :: EndsLine(lines[i]))
    && (if piece == "" then lines != [] ==> EndsLine(lines[|lines| - 1])
        else lines != [] && lines[|lines| - 1] == piece)
  }

  lemma {:induction false} SplitLinesExact(t: string)
    ensures LinesOf(SplitLines(t), LastPiece(t))
  {
    if t != "" {
      var front, c := t[..|t| - 1], t[|t| - 1];
      SplitLinesExact(front);
      LastPieceNoBreak(front);
      LinesGrow(SplitLines(front), LastPiece(front), c);
    }
  }

  lemma LinesGrow(lines: seq<string>, piece: string, c: char)
    requires LinesOf(lines, piece) && NoBreak(piece)
    ensures LinesOf(if piece == "" then lines + [[c]] else lines[..|lines| - 1] + [piece + [c]],
                    if IsBreak(c) then "" else piece + [c])
  {
    Dropped(piece, c);
    var last := piece + [c];
    assert IsLine(last) && (EndsLine(last) <==> IsBreak(c));
    var grown := if piece == "" then lines + [[c]] else lines[..|lines| - 1] + [last];
    var n := |grown| - 1;
    assert grown[n] == last && n <= |lines|;
    forall i | 0 <= i < n ensures IsLine(grown[i]) && EndsLine(grown[i]) {
      assert grown[i] == lines[i];
      assert i == |lines| - 1 ==> piece == "";
    }
  }

  lemma Dropped<T>(s: seq<T>, x: T)
    ensures (s + [x])[..|s|] == s
  {
  }

  lemma SplitSnoc(t: string, c: char)
    ensures SplitLines(t + [c]) ==
            if LastPiece(t) == "" then SplitLines(t) + [[c]]
            else SplitLines(t)[..|SplitLines(t)| - 1] + [LastPiece(t) + [c]]
    ensures LastPiece(t + [c]) == if IsBreak(c) then "" else LastPiece(t) + [c]
  {
    assert (t + [c])[..|t|] == t;
  }

  /** The records among the lines, or None at a complete line that is not one. */
  function DecodeLines(c: Codec, lines: seq<string>): Option<seq<Envelope>> {
    if lines == [] then Some([])
    else
      var before, line := DecodeLines(c, lines[..|lines| - 1]), lines[|lines| - 1];
      if before == None || Blank(line) || line == "" || line[|line| - 1] != '\n' then before
      else
        match c.decode(line)
        case None => None
        case Some(e) => Some(before.value + [e])
  }

  function ReadText(c: Codec, t: string): Option<seq<Envelope>> {
    DecodeLines(c, SplitLines(t))
  }

  lemma DecodeSnoc(c: Codec, lines: seq<string>, line: string)
    ensures DecodeLines(c, lines + [line]) ==
            if DecodeLines(c, lines) == None || Blank(line) || line == "" || line[|line| - 1] != '\n'
            then DecodeLines(c, lines)
            else match c.decode(line) case None => None case Some(e) => Some(DecodeLines(c, lines).value + [e])
  {
    assert (lines + [line])[..|lines|] == lines;
  }

  /** Characters other than a newline change nothing that is read. */
  lemma CharInvisible(c: Codec, t: string, x: char)
    requires x != '\n'
    ensures ReadText(c, t + [x]) == ReadText(c, t)
  {
    SplitSnoc(t, x);
    var lines := SplitLines(t);
    if LastPiece(t) == "" {
      DecodeSnoc(c, lines, [x]);
    } else {
      var front, last := lines[..|lines| - 1], LastPiece(t);
      assert lines == front + [last];
      DecodeSnoc(c, front, last);
      DecodeSnoc(c, front, last + [x]);
    }
  }

  lemma Unsnoc<T>(s: seq<T>)
    requires s != []
    ensures s == s[..|s| - 1] + [s[|s| - 1]]
  {
  }

  /** A torn append of any length is invisible. */
  lemma {:induction false} TearInvisible(c: Codec, t: string, x: string)
    requires forall i | 0 <= i < |x| :: x[i] != '\n'
    ensures ReadText(c, t + x) == ReadText(c, t)
  {
    if x == "" {
      assert t + x == t;
    } else {
      var front, last := x[..|x| - 1], x[|x| - 1];
      TearInvisible(c, t, front);
      Unsnoc(x);
      Associative(t, front, [last]);
      CharInvisible(c, t + front, last);
    }
  }

  lemma PieceSnoc(t: string, c: char)
    ensures LastPiece(t + [c]) == if IsBreak(c) then "" else LastPiece(t) + [c]
    ensures BreakEnd(t + [c]) == if IsBreak(c) then |t| + 1 else BreakEnd(t)
  {
    Dropped(t, c);
  }

  /** What remains of a text after its last line break, growing by one character. */
  lemma RemainderSnoc(t: string, c: char)
    requires !IsBreak(c)
    ensures (t + [c])[BreakEnd(t)..] == t[BreakEnd(t)..] + [c]
  {
  }

  /** Text added to a log extends its unfinished line, or starts that line anew
      after the last line break it contains. */
  lemma {:induction false} PieceAfter(t: string, x: string)
    ensures LastPiece(t + x) == if NoBreak(x) then LastPiece(t) + x else x[BreakEnd(x)..]
  {
    if x == "" {
      assert t + x == t;
    } else {
      var front, last := x[..|x| - 1], x[|x| - 1];
      PieceAfter(t, front);
      Unsnoc(x);
      Associative(t, front, [last]);
      PieceSnoc(t + front, last);
      PieceSnoc(front, last);
      if !IsBreak(last) {
        RemainderSnoc(front, last);
        Associative(LastPiece(t), front, [last]);
      }
    }
  }

  lemma CompleteLine(c: Codec, t: string)
    requires LastPiece(t) != "" && !Blank(LastPiece(t) + "\n")
    ensures ReadText(c, t + "\n") ==
            if ReadText(c, t) == None then None
            else match c.decode(LastPiece(t) + "\n") case None => None case Some(e) => Some(ReadText(c, t).value + [e])
  {
    SplitSnoc(t, '\n');
    var lines := SplitLines(t);
    var front, last := lines[..|lines| - 1], LastPiece(t);
    assert lines == front + [last];
    DecodeSnoc(c, front, last);
    DecodeSnoc(c, front, last + "\n");
    assert t + ['\n'] == t + "\n";
  }

  /** A line of blanks holds no record and is no error. */
  lemma BlankLineInvisible(c: Codec, t: string)
    requires Blank(LastPiece(t))
    ensures ReadText(c, t + "\n") == ReadText(c, t)
  {
    SplitSnoc(t, '\n');
    assert t + ['\n'] == t + "\n";
    var lines := SplitLines(t);
    if LastPiece(t) == "" {
      DecodeSnoc(c, lines, "\n");
    } else {
      var front := lines[..|lines| - 1];
      assert lines == front + [LastPiece(t)];
      DecodeSnoc(c, front, LastPiece(t));
      DecodeSnoc(c, front, LastPiece(t) + "\n");
    }
  }

  /** When the record of `e`, appended to the log text `t`, will be readable: its payload
      is accepted, it has no line break inside, and the log ends in no unfinished line
      but white space. */
  predicate AppendsCleanly(c: Codec, t: string, e: Envelope) {
    c.accepts(e.payload) && NoBreak(c.encode(e)) && JsonBlank(LastPiece(t))
  }

  /** The line that a complete append finishes, and what it decodes to. */
  lemma FinishedLine(c: Codec, t: string, e: Envelope)
    requires Lawful(c)
    ensures var piece := LastPiece(t + c.encode(e));
            && piece != "" && !Blank(piece + "\n")
            && c.decode(piece + "\n") == if AppendsCleanly(c, t, e) then Some(e) else None
  {
    var record := c.encode(e);
    assert RecordShape(record);
    PieceAfter(t, record);
    BreakEndExact(record);
    var piece := LastPiece(t + record);
    if NoBreak(record) {
      assert PrecededLaw(c, LastPiece(t), e);
    } else {
      assert RemainderLaw(c, e, BreakEnd(record));
    }
    assert piece[|piece| - 1] == '}';
    assert !IsSpace((piece + "\n")[|piece| - 1]);
  }

  /** The exact effect of a complete append on what is read back. */
  lemma AppendReads(c: Codec, t: string, e: Envelope)
    requires Lawful(c) && ReadText(c, t) != None
    ensures ReadText(c, t + c.encode(e) + "\n") ==
            if AppendsCleanly(c, t, e) then Some(ReadText(c, t).value + [e]) else None
  {
    assert RecordShape(c.encode(e));
    TearInvisible(c, t, c.encode(e));
    FinishedLine(c, t, e);
    CompleteLine(c, t + c.encode(e));
  }

  /** The log file.  Bytes that are not UTF-8 text have only a size here: every read
      of such a file fails. */
  datatype WalFile = NoWal | Utf8(text: string) | NotUtf8(size: nat) {
    function Bytes(): nat {
      match this
      case NoWal => 0
      case Utf8(text) => Size(text)
      case NotUtf8(size) => size
    }

    function Append(text: string): WalFile {
      match this
      case NoWal => Utf8(text)
      case Utf8(t) => Utf8(t + text)
      case NotUtf8(size) => NotUtf8(size + Size(text))
    }

    /** An append that stops after `k` characters and `stray` bytes of the next one. */
    function TornAppend(text: string, k: nat, stray: nat): WalFile
      requires k < |text| && stray < Utf8Width(text[k])
    {
      if stray == 0 then Append(text[..k]) else NotUtf8(Bytes() + Size(text[..k]) + stray)
    }
  }

  function ReadWal(c: Codec, wal: WalFile): Option<seq<Envelope>> {
    match wal
    case NoWal => Some([])
    case Utf8(text) => ReadText(c, text)
    case NotUtf8(_) => None
  }
}
