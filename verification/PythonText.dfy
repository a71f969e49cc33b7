/** Text conversions the resume index relies on: decimal printing, reading an integer
    back as Python's `int` does with all that it tolerates, and splitting on colons
    without losing anything. */
module PythonText {
  import opened Characters
  import opened Options

  function Digit(d: nat): char
    requires d < 10
  {
    ('0' as int + d) as char
  }

  predicate IsDigit(c: char) {
    '0' <= c <= '9'
  }

  /** `str(n)` */
  function Decimal(n: nat): string {
    (if n < 10 then "" else Decimal(n / 10)) + [Digit(n % 10)]
  }

  function Strip(s: string): string {
    StripEnd(StripStart(s))
  }

  function StripStart(s: string): string {
    if s != [] && IsSpace(s[0]) then StripStart(s[1..]) else s
  }

  function StripEnd(s: string): string {
    if s != [] && IsSpace(s[|s| - 1]) then StripEnd(s[..|s| - 1]) else s
  }

  predicate Blank(s: string) {
    Strip(s) == ""
  }

  /** Digits with single underscores between them. */
  function Digits(s: string): Option<nat> {
    if s == [] || !IsDigit(s[|s| - 1]) then None
    else
      var d := s[|s| - 1] as int - '0' as int;
      if |s| == 1 then Some(d)
      else
        match Digits(if s[|s| - 2] == '_' then s[..|s| - 2] else s[..|s| - 1])
        case None => None
        case Some(v) => Some(10 * v + d)
  }

  function Signed(negative: bool, v: int): int {
    if negative then -v else v
  }

  /** `int(s)`, without its ValueError: blanks around, a sign, underscores and leading
      zeros are all accepted. */
  function ParseInt(s: string): Option<int> {
    var t := Strip(s);
    if t != [] && t[0] in "+-" then
      match Digits(t[1..])
      case None => None
      case Some(v) => Some(Signed(t[0] == '-', v))
    else
      match Digits(t)
      case None => None
      case Some(v) => Some(v)
  }

  lemma {:induction false} DecimalDigits(n: nat)
    ensures Digits(Decimal(n)) == Some(n)
    ensures forall k | 0 <= k < |Decimal(n)| :: IsDigit(Decimal(n)[k])
    ensures Decimal(n) != []
  {
    if n >= 10 {
      DecimalDigits(n / 10);
      assert Decimal(n)[..|Decimal(n)| - 1] == Decimal(n / 10);
    }
  }

  lemma PlainStrip(s: string)
    requires s != [] && IsDigit(s[0]) && IsDigit(s[|s| - 1])
    ensures Strip(s) == s
  {
    assert !IsSpace(s[0]) && !IsSpace(s[|s| - 1]);
  }

  /** Printing then reading gives the number back. */
  lemma ParseDecimal(n: nat)
    ensures ParseInt(Decimal(n)) == Some(n)
  {
    DecimalDigits(n);
    var s := Decimal(n);
    PlainStrip(s);
    assert IsDigit(s[0]);
  }

  lemma DecimalInjective(m: nat, n: nat)
    requires Decimal(m) == Decimal(n)
    ensures m == n
  {
    ParseDecimal(m);
    ParseDecimal(n);
  }

  /** What `int` accepts holds no colon. */
  lemma {:induction false} DigitsHoldNoColon(s: string)
    requires Digits(s).Some?
    ensures ':' !in s
  {
    if |s| > 1 {
      DigitsHoldNoColon(if s[|s| - 2] == '_' then s[..|s| - 2] else s[..|s| - 1]);
    }
  }

  lemma StripKeepsColons(s: string)
    requires ':' in s
    ensures ':' in Strip(s)
  {
    StripStartKeepsColons(s);
    StripEndKeepsColons(StripStart(s));
  }

  lemma {:induction false} StripStartKeepsColons(s: string)
    requires ':' in s
    ensures ':' in StripStart(s)
  {
    if IsSpace(s[0]) {
      assert s == [s[0]] + s[1..];
      StripStartKeepsColons(s[1..]);
    }
  }

  lemma {:induction false} StripEndKeepsColons(s: string)
    requires ':' in s
    ensures ':' in StripEnd(s)
  {
    if IsSpace(s[|s| - 1]) {
      assert s == s[..|s| - 1] + [s[|s| - 1]];
      StripEndKeepsColons(s[..|s| - 1]);
    }
  }

  lemma NumbersHoldNoColon(s: string)
    requires ParseInt(s).Some?
    ensures ':' !in s
  {
    var t := Strip(s);
    if t != [] && t[0] in "+-" {
      DigitsHoldNoColon(t[1..]);
      assert t == [t[0]] + t[1..];
    } else {
      DigitsHoldNoColon(t);
    }
    if ':' in s { StripKeepsColons(s); }
  }

  /** `s.split(":")` */
  function Split(s: string): (parts: seq<string>)
    ensures |parts| >= 1
  {
    if s == [] then [""]
    else
      var rest := Split(s[1..]);
      if s[0] == ':' then [""] + rest else [[s[0]] + rest[0]] + rest[1..]
  }

  lemma {:induction false} SplitPiece(piece: string)
    requires ':' !in piece
    ensures Split(piece) == [piece]
  {
    if piece != [] {
      SplitPiece(piece[1..]);
      assert piece == [piece[0]] + piece[1..] && Split(piece[1..])[1..] == [];
    }
  }

  lemma {:induction false} SplitAtColon(piece: string, rest: string)
    requires ':' !in piece
    ensures Split(piece + ":" + rest) == [piece] + Split(rest)
  {
    var s := piece + ":" + rest;
    if piece == [] {
      assert s[1..] == rest;
    } else {
      SplitAtColon(piece[1..], rest);
      assert s[1..] == piece[1..] + ":" + rest;
      assert piece == [piece[0]] + piece[1..];
      assert ([piece[1..]] + Split(rest))[1..] == Split(rest);
    }
  }

  function Join(parts: seq<string>): string
    requires |parts| >= 1
  {
    if |parts| == 1 then parts[0] else parts[0] + ":" + Join(parts[1..])
  }

  /** Splitting loses nothing: the pieces joined again are the text. */
  lemma {:induction false} JoinSplit(s: string)
    ensures Join(Split(s)) == s
  {
    if s != [] {
      var rest := Split(s[1..]);
      JoinSplit(s[1..]);
      if s[0] == ':' {
        assert Split(s)[1..] == rest;
      } else {
        assert Split(s)[1..] == rest[1..];
      }
    }
  }

  /** `int` on a few texts: signs, blanks, zeros and single underscores are accepted, an
      empty text, a doubled or leading underscore and other characters are not. */
  lemma ParseSamples()
    ensures ParseInt("7") == Some(7) && ParseInt("-7") == Some(-7) && ParseInt("+07") == Some(7)
  {
    assert "-7"[1..] == "7" && "+07"[1..] == "07";
  }

  lemma BlankSample()
    ensures ParseInt(" 1_0\t") == Some(10)
  {
    assert Strip(" 1_0\t") == "1_0";
    assert "1_0"[..1] == "1";
  }

  lemma RejectSamples()
    ensures ParseInt("") == None && ParseInt("1__0") == None && ParseInt("_1") == None && ParseInt("1x") == None
  {
    assert "1__0"[..2] == "1_" && "_1"[..0] == "";
  }

  /** Printed numbers have no leading zero. */
  lemma {:induction false} DecimalPlain(n: nat)
    ensures n > 0 ==> Decimal(n)[0] != '0'
    ensures n < 10 ==> |Decimal(n)| == 1
  {
    if n >= 10 { DecimalPlain(n / 10); }
  }

  /** Stripping takes blanks off both ends until there are none. */
  lemma StripExact(s: string)
    ensures exists a, b :: s == a + Strip(s) + b && AllSpace(a) && AllSpace(b)
    ensures Strip(s) != "" ==> !IsSpace(Strip(s)[0]) && !IsSpace(Strip(s)[|Strip(s)| - 1])
  {
    var a := StartStripped(s);
    var t := StripStart(s);
    var b := EndStripped(t);
    assert s == a + (Strip(s) + b);
    assert s == a + Strip(s) + b;
  }

  predicate AllSpace(s: string) {
    forall i | 0 <= i < |s| :: IsSpace(s[i])
  }

  lemma {:induction false} StartStripped(s: string) returns (a: string)
    ensures s == a + StripStart(s) && AllSpace(a)
    ensures StripStart(s) != "" ==> !IsSpace(StripStart(s)[0])
  {
    a := "";
    if s != [] && IsSpace(s[0]) {
      a := StartStripped(s[1..]);
      a := [s[0]] + a;
    }
  }

  lemma {:induction false} EndStripped(s: string) returns (b: string)
    ensures s == StripEnd(s) + b && AllSpace(b)
    ensures StripEnd(s) != "" ==> !IsSpace(StripEnd(s)[|StripEnd(s)| - 1]) && StripEnd(s)[0] == s[0]
  {
    b := "";
    if s != [] && IsSpace(s[|s| - 1]) {
      b := EndStripped(s[..|s| - 1]);
      assert s == s[..|s| - 1] + [s[|s| - 1]];
      b := b + [s[|s| - 1]];
    }
  }
}
