/** The laws assumed of the record format are consistent: a small format obeys them.
    Its records are braces around letters, a revision in unary and then each character
    of the payload in unary; like the store's JSON it leaves the line separator U+2028
    as it is, and like the store's reader it refuses some payloads. */
module LawfulCodec {
  import opened Options
  import opened WalText

  const SEPARATOR := '\U{2028}'

  function Unary(n: nat): string {
    if n == 0 then "b" else "a" + Unary(n - 1)
  }

  function Chars(s: string): string {
    if s == "" then ""
    else CharCode(s[0]) + Chars(s[1..])
  }

  function Body(e: Envelope): string {
    Unary(e.revision) + (Chars(e.payload) + "}")
  }

  function Encode(e: Envelope): string {
    "{" + Body(e)
  }

  /** The empty payload is the one no read accepts. */
  predicate Accepts(payload: string) {
    payload != ""
  }

  ghost predicate Framed(s: string, p: string, e: Envelope, q: string) {
    s == p + Encode(e) + q && JsonBlank(p) && (q == "" || q == "\n") && Accepts(e.payload)
  }

  ghost function Decode(s: string): Option<Envelope> {
    if exists p, e, q :: Framed(s, p, e, q) then
      var p, e, q :| Framed(s, p, e, q);
      Some(e)
    else None
  }

  predicate IsPlain(c: char) {
    c == 'a' || c == 'b' || c == SEPARATOR
  }

  lemma {:induction false} UnaryPlain(n: nat)
    ensures forall i | 0 <= i < |Unary(n)| :: Unary(n)[i] == 'a' || Unary(n)[i] == 'b'
  {
    if n > 0 { UnaryPlain(n - 1); }
  }

  lemma {:induction false} CharsPlain(s: string)
    ensures forall i | 0 <= i < |Chars(s)| :: IsPlain(Chars(s)[i])
  {
    if s != "" {
      UnaryPlain(s[0] as int);
      CharsPlain(s[1..]);
    }
  }

  lemma BodyPlain(e: Envelope)
    ensures forall i | 0 <= i < |Body(e)| - 1 :: IsPlain(Body(e)[i])
    ensures |Body(e)| > 0 && Body(e)[|Body(e)| - 1] == '}'
  {
    UnaryPlain(e.revision);
    CharsPlain(e.payload);
  }

  lemma {:induction false} UnarySplits(m: nat, x: string, n: nat, y: string)
    requires Unary(m) + x == Unary(n) + y
    ensures m == n && x == y
  {
    assert (Unary(m) + x)[0] == Unary(m)[0] && (Unary(n) + y)[0] == Unary(n)[0];
    assert (Unary(m) + x)[1..] == Unary(m)[1..] + x && (Unary(n) + y)[1..] == Unary(n)[1..] + y;
    if m > 0 && n > 0 {
      assert Unary(m)[1..] == Unary(m - 1) && Unary(n)[1..] == Unary(n - 1);
      UnarySplits(m - 1, x, n - 1, y);
    } else {
      assert Unary(m)[1..] == "" && Unary(n)[1..] == "";
    }
  }

  /** The code of one character, and what follows it. */
  function CharCode(c: char): (code: string)
    ensures code != "" && code[0] != '}'
  {
    if c == SEPARATOR then [SEPARATOR] else Unary(c as int)
  }

  lemma CharSplits(c: char, x: string, d: char, y: string)
    requires CharCode(c) + x == CharCode(d) + y
    ensures c == d && x == y
  {
    assert (CharCode(c) + x)[0] == CharCode(c)[0] && (CharCode(d) + y)[0] == CharCode(d)[0];
    UnaryPlain(c as int);
    UnaryPlain(d as int);
    if c == SEPARATOR {
      assert d == SEPARATOR;
      assert (CharCode(c) + x)[1..] == x && (CharCode(d) + y)[1..] == y;
    } else {
      assert d != SEPARATOR;
      UnarySplits(c as int, x, d as int, y);
    }
  }

  lemma {:induction false} CharsInjective(s: string, t: string)
    requires Chars(s) + "}" == Chars(t) + "}"
    ensures s == t
  {
    if s != "" { assert Chars(s) + "}" == CharCode(s[0]) + (Chars(s[1..]) + "}"); }
    if t != "" { assert Chars(t) + "}" == CharCode(t[0]) + (Chars(t[1..]) + "}"); }
    if s != "" && t != "" {
      CharSplits(s[0], Chars(s[1..]) + "}", t[0], Chars(t[1..]) + "}");
      CharsInjective(s[1..], t[1..]);
      assert s == [s[0]] + s[1..] && t == [t[0]] + t[1..];
    }
  }

  /** Where the one opening brace of a framed record is. */
  lemma BraceAt(p: string, e: Envelope, q: string)
    requires q == "" || q == "\n"
    ensures var s := p + Encode(e) + q;
            && s[|p|] == '{' && s[|s| - 1] == (if q == "" then '}' else '\n')
            && (forall i | |p| < i < |s| :: s[i] != '{')
            && s[..|p|] == p && s[|p| + 1..|s| - |q|] == Body(e)
  {
    BodyPlain(e);
    var s := p + Encode(e) + q;
    assert forall i | |p| < i < |s| - |q| :: s[i] == Body(e)[i - |p| - 1];
  }

  /** A record can be read in one way only. */
  lemma FrameUnique(p: string, e: Envelope, q: string, p': string, e': Envelope, q': string)
    requires p + Encode(e) + q == p' + Encode(e') + q'
    requires JsonBlank(p') && (q == "" || q == "\n") && (q' == "" || q' == "\n")
    ensures p == p' && e == e'
  {
    BraceAt(p, e, q);
    BraceAt(p', e', q');
    assert |p| == |p'| && |q| == |q'|;
    UnarySplits(e.revision, Chars(e.payload) + "}", e'.revision, Chars(e'.payload) + "}");
    CharsInjective(e.payload, e'.payload);
  }

  lemma DecodeExact(p: string, e: Envelope, q: string)
    requires q == "" || q == "\n"
    ensures Decode(p + Encode(e) + q) == if JsonBlank(p) && Accepts(e.payload) then Some(e) else None
  {
    var s := p + Encode(e) + q;
    if JsonBlank(p) && Accepts(e.payload) { assert Framed(s, p, e, q); }
    forall p', e', q' | Framed(s, p', e', q') ensures p' == p && e' == e {
      FrameUnique(p, e, q, p', e', q');
    }
  }

  lemma FramedHasBrace(s: string, p: string, e: Envelope, q: string)
    requires Framed(s, p, e, q)
    ensures |p| < |s| && s[|p|] == '{'
  {
    BraceAt(p, e, q);
  }

  /** What follows a separator inside a record has no opening brace and does not parse. */
  lemma RemainderFails(e: Envelope, k: nat)
    requires 0 < k <= |Encode(e)|
    ensures Decode(Encode(e)[k..] + "\n") == None
  {
    BodyPlain(e);
    var s := Encode(e)[k..] + "\n";
    assert forall i | 0 <= i < |s| - 1 :: s[i] == Body(e)[k + i - 1];
    forall p, e', q | Framed(s, p, e', q) ensures false {
      FramedHasBrace(s, p, e', q);
    }
  }

  ghost function Sample(): Codec {
    Codec(e => Encode(e), s => Decode(s), payload => Accepts(payload), s => s)
  }

  lemma SampleShape(e: Envelope)
    ensures RecordShape(Encode(e))
  {
    BodyPlain(e);
    var record := Encode(e);
    forall i | 0 <= i < |record| ensures record[i] >= ' ' {
      assert i > 0 ==> record[i] == Body(e)[i - 1];
    }
  }

  lemma Unframed(s: string)
    ensures "" + s + "" == s
  {
  }

  lemma SampleRecords(e: Envelope)
    ensures RecordShape(Encode(e)) && Decode(Encode(e)) == if Accepts(e.payload) then Some(e) else None
  {
    SampleShape(e);
    Unframed(Encode(e));
    DecodeExact("", e, "");
  }

  lemma SamplePreceded(p: string, e: Envelope)
    ensures PrecededLaw(Sample(), p, e)
  {
    DecodeExact(p, e, "\n");
  }

  lemma SampleRemainder(e: Envelope, k: nat)
    ensures RemainderLaw(Sample(), e, k)
  {
    if 0 < k <= |Encode(e)| { RemainderFails(e, k); }
  }

  lemma SampleIsLawful()
    ensures Lawful(Sample())
  {
    var c := Sample();
    forall e
      ensures RecordShape(c.encode(e)) && c.decode(c.encode(e)) == if c.accepts(e.payload) then Some(e) else None
    {
      SampleRecords(e);
    }
    forall p, e ensures PrecededLaw(c, p, e) { SamplePreceded(p, e); }
    forall e, k: nat ensures RemainderLaw(c, e, k) { SampleRemainder(e, k); }
  }
}
