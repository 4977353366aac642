/** What digests and JSON documents are made of: the hash, the validity test, and texts the encoder leaves alone. */
module Encoding {
  import opened Text
  import opened JsonText
  import opened JsonMeaning

  /** What the code takes from its surroundings: SHA-256 and `json.Valid`. */
  datatype Codec = Codec(sha256: string -> Digest, valid: string -> bool) {
    /** `hex.EncodeToString(sha256(text))`. */
    function HexDigest(text: string): (digest: string)
      ensures |digest| == 64 && forall c :: c in digest ==> IsLowerHex(c)
    {
      Hex(sha256(text))
    }

    /** The premise on `json.Valid` for one text: valid JSON is not empty, has the lexical form, and stays valid in the encoder's forms. */
    predicate Sound(text: string) {
      !valid("") && (valid(text) ==> Lexical(text, Outside) && valid(Compact(text)) && valid(Escape(text)))
    }

    /** The premise on SHA-256 for one pair of texts. */
    predicate NoCollision(a: string, b: string) {
      sha256(a) == sha256(b) ==> a == b
    }
  }

  lemma DigestDetermines(codec: Codec, a: string, b: string)
    requires codec.NoCollision(a, b)
    ensures codec.HexDigest(a) == codec.HexDigest(b) <==> a == b
  {
    if codec.HexDigest(a) == codec.HexDigest(b) {
      HexInjective(codec.sha256(a), codec.sha256(b));
    }
  }

  /** A document carried inside `times` further documents, each encoded as a raw message. */
  function Carry(text: string, times: nat): string {
    if times == 0 then text else Escape(Carry(text, times - 1))
  }

  lemma {:induction false} CarryIsEscape(text: string, times: nat)
    requires Lexical(text, Outside) && times > 0
    ensures Carry(text, times) == Escape(text)
  {
    if times > 1 {
      CarryIsEscape(text, times - 1);
      ScanTwice(text, Outside, true, true);
    }
  }

  /** However often it is carried, a document means what it meant. */
  lemma {:induction false} CarryKeepsMeaning(text: string, times: nat)
    requires Lexical(text, Outside)
    ensures Meaning(Carry(text, times), Outside) == Meaning(text, Outside)
  {
    if times > 0 {
      CarryIsEscape(text, times);
      ScanKeepsMeaning(text, Outside, true);
    }
  }

  // ----- texts the encoder leaves alone -----

  /** The encoder copies the text, whatever follows it. */
  ghost predicate Fixed(text: string) {
    forall rest :: Scan(text + rest, Outside, true) == text + Scan(rest, Outside, true)
  }

  lemma {:induction false} CarryFixed(text: string, times: nat)
    requires Fixed(text)
    ensures Carry(text, times) == text
  {
    if times > 0 {
      CarryFixed(text, times - 1);
      assert text + "" == text;
      assert Scan(text + "", Outside, true) == text + Scan("", Outside, true);
    }
  }

  lemma FixedConcat(a: string, b: string)
    requires Fixed(a) && Fixed(b)
    ensures Fixed(a + b)
  {
    forall rest
      ensures Scan((a + b) + rest, Outside, true) == (a + b) + Scan(rest, Outside, true)
    {
      assert (a + b) + rest == a + (b + rest);
      assert (a + b) + Scan(rest, Outside, true) == a + (b + Scan(rest, Outside, true));
    }
  }

  lemma EscapeIsFixed(text: string)
    requires Lexical(text, Outside)
    ensures Fixed(Escape(text))
  {
    ScanTwice(text, Outside, true, true);
    ScanLexical(text, Outside, true);
    forall rest
      ensures Scan(Escape(text) + rest, Outside, true) == Escape(text) + Scan(rest, Outside, true)
    {
      ScanConcat(Escape(text), rest, Outside, true);
    }
  }

  /** A JSON string without anything to escape. */
  function Quote(s: string): string {
    ['"'] + (s + ['"'])
  }

  lemma QuoteParts(s: string, rest: string)
    ensures Quote(s) + rest == ['"'] + (s + (['"'] + rest))
  {
  }

  lemma ScanQuoted(s: string, rest: string)
    requires Inert(s)
    ensures Scan(Quote(s) + rest, Outside, true) == Quote(s) + Scan(rest, Outside, true)
  {
    QuoteParts(s, rest);
    ScanPlain('"', s + (['"'] + rest), Outside, true);
    ScanInert(s, ['"'] + rest, InString, true);
    ScanPlain('"', rest, InString, true);
    QuoteParts(s, Scan(rest, Outside, true));
  }

  lemma QuoteIsFixed(s: string)
    requires Inert(s)
    ensures Fixed(Quote(s))
  {
    forall rest
      ensures Scan(Quote(s) + rest, Outside, true) == Quote(s) + Scan(rest, Outside, true)
    {
      ScanQuoted(s, rest);
    }
  }

  lemma MarkIsFixed(c: char)
    requires c == '{' || c == '}' || c == ',' || c == ':'
    ensures Fixed([c])
  {
    forall rest
      ensures Scan([c] + rest, Outside, true) == [c] + Scan(rest, Outside, true)
    {
      ScanPlain(c, rest, Outside, true);
    }
  }

  /** `"name":value` with what follows it. */
  function Member(name: string, value: string, rest: string): string {
    Quote(name) + ([':'] + (value + rest))
  }

  lemma MemberIsFixed(name: string, value: string, rest: string)
    requires Inert(name) && Fixed(value) && Fixed(rest)
    ensures Fixed(Member(name, value, rest))
  {
    QuoteIsFixed(name);
    MarkIsFixed(':');
    FixedConcat(value, rest);
    FixedConcat([':'], value + rest);
    FixedConcat(Quote(name), [':'] + (value + rest));
  }

  // ----- reading -----

  /** What follows a prefix. */
  function Expect(text: string, prefix: string): Option<string> {
    if prefix <= text then Some(text[|prefix|..]) else None
  }

  lemma ExpectPrefix(prefix: string, rest: string)
    ensures Expect(prefix + rest, prefix) == Some(rest)
  {
  }

  /** The content of a string up to its closing quote, and what follows. */
  function ReadUntilQuote(text: string): Option<(string, string)> {
    if text == "" || text[0] == '\\' then None
    else if text[0] == '"' then Some(("", text[1..]))
    else
      var more := ReadUntilQuote(text[1..]);
      if more == None then None else Some(([text[0]] + more.value.0, more.value.1))
  }

  function ReadQuoted(text: string): Option<(string, string)> {
    if text == "" || text[0] != '"' then None else ReadUntilQuote(text[1..])
  }

  lemma {:induction false} ReadInert(s: string, rest: string)
    requires Inert(s)
    ensures ReadUntilQuote(s + (['"'] + rest)) == Some((s, rest))
  {
    var text := s + (['"'] + rest);
    if s == "" {
      assert text == ['"'] + rest && text[1..] == rest;
    } else {
      assert text[0] == s[0] && InertChar(s[0]);
      assert text[1..] == s[1..] + (['"'] + rest);
      ReadInert(s[1..], rest);
      assert [s[0]] + s[1..] == s;
    }
  }

  lemma ReadQuotedInert(s: string, rest: string)
    requires Inert(s)
    ensures ReadQuoted(Quote(s) + rest) == Some((s, rest))
  {
    assert Quote(s) + rest == ['"'] + (s + (['"'] + rest));
    assert (['"'] + (s + (['"'] + rest)))[1..] == s + (['"'] + rest);
    ReadInert(s, rest);
  }

  /** The value, and what follows, of a member expected next after a mark. */
  function ReadMember(text: string, mark: char, name: string): Option<string> {
    Expect(text, [mark] + Quote(name) + [':'])
  }

  lemma ReadMemberText(mark: char, name: string, value: string, rest: string)
    ensures ReadMember([mark] + Member(name, value, rest), mark, name) == Some(value + rest)
  {
    var prefix := [mark] + Quote(name) + [':'];
    assert [mark] + Member(name, value, rest) == prefix + (value + rest);
    ExpectPrefix(prefix, value + rest);
  }
}
