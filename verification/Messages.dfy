/** JSON objects as `json.Marshal` writes them: members in a fixed order, the last one a raw message. */
module Messages {
  import opened Text
  import opened Regex
  import opened Patterns
  import opened Timestamps
  import opened JsonText
  import opened Encoding
  import opened Words

  // ----- writing -----

  /** A string member that needs no escaping. */
  function TextMember(mark: char, name: string, value: string, rest: string): string {
    [mark] + Member(name, Quote(value), rest)
  }

  function NumberMember(mark: char, name: string, value: nat, rest: string): string {
    [mark] + Member(name, Decimal(value), rest)
  }

  /** The closing member, a raw message in the encoder's form. */
  function LastMember(name: string, raw: string): string {
    [','] + Member(name, Escape(raw), ['}'])
  }

  /** What a text member starts with, and its value up to the closing quote. */
  lemma TextMemberIs(head: string, mark: char, name: string, value: string, rest: string)
    requires head == [mark] + (['"'] + name + ['"']) + [':', '"']
    ensures TextMember(mark, name, value, rest) == head + (value + (['"'] + rest))
  {
    var quoted := ['"'] + (name + ['"']);
    assert ['"'] + name + ['"'] == quoted;
    assert Quote(value) + rest == ['"'] + (value + (['"'] + rest));
    assert [mark] + (quoted + ([':'] + (['"'] + (value + (['"'] + rest))))) == head + (value + (['"'] + rest));
  }

  lemma NumberMemberIs(head: string, mark: char, name: string, value: nat, rest: string)
    requires head == [mark] + (['"'] + name + ['"']) + [':']
    ensures NumberMember(mark, name, value, rest) == head + (Decimal(value) + rest)
  {
    RawMemberIs(head, mark, name, Decimal(value), rest);
  }

  lemma RawMemberIs(head: string, mark: char, name: string, value: string, rest: string)
    requires head == [mark] + (['"'] + name + ['"']) + [':']
    ensures [mark] + Member(name, value, rest) == head + (value + rest)
  {
    var quoted := ['"'] + (name + ['"']);
    assert ['"'] + name + ['"'] == quoted;
    assert [mark] + (quoted + ([':'] + (value + rest))) == head + (value + rest);
  }

  /** A closing quote and the text member behind it. */
  lemma TextThen(head: string, mark: char, name: string, value: string, rest: string)
    requires head == ['"', mark] + (['"'] + name + ['"']) + [':', '"']
    ensures ['"'] + TextMember(mark, name, value, rest) == head + (value + (['"'] + rest))
  {
    assert ['"'] + head[1..] == head && head[1..] == [mark] + (['"'] + name + ['"']) + [':', '"'];
    TextMemberIs(head[1..], mark, name, value, rest);
    assert ['"'] + (head[1..] + (value + (['"'] + rest))) == head + (value + (['"'] + rest));
  }

  /** A closing quote and the member behind it, whatever its value. */
  lemma RawThen(head: string, mark: char, name: string, value: string, rest: string)
    requires head == ['"', mark] + (['"'] + name + ['"']) + [':']
    ensures ['"'] + ([mark] + Member(name, value, rest)) == head + (value + rest)
  {
    assert ['"'] + head[1..] == head && head[1..] == [mark] + (['"'] + name + ['"']) + [':'];
    RawMemberIs(head[1..], mark, name, value, rest);
    assert ['"'] + (head[1..] + (value + rest)) == head + (value + rest);
  }

  lemma NumberThen(head: string, mark: char, name: string, value: nat, rest: string)
    requires head == ['"', mark] + (['"'] + name + ['"']) + [':']
    ensures ['"'] + NumberMember(mark, name, value, rest) == head + (Decimal(value) + rest)
  {
    RawThen(head, mark, name, Decimal(value), rest);
  }

  // ----- reading -----

  /** A member that is a string, and what follows it. */
  function ReadText(text: string, mark: char, name: string): Option<(string, string)> {
    var value := ReadMember(text, mark, name);
    if value == None then None else ReadQuoted(value.value)
  }

  /** The digits a text starts with. */
  function LeadingDigits(text: string): (count: nat)
    ensures count <= |text| && AllDigits(text[..count])
  {
    if text == "" || !IsDigit(text[0]) then 0 else 1 + LeadingDigits(text[1..])
  }

  /** An unsigned 64-bit number, and what follows it. */
  function ReadWord(text: string): Option<(Word, string)> {
    var count := LeadingDigits(text);
    if count == 0 || (count > 1 && text[0] == '0') || Value(text[..count]) >= WORD then None
    else Some((Value(text[..count]), text[count..]))
  }

  function ReadNumber(text: string, mark: char, name: string): Option<(Word, string)> {
    var value := ReadMember(text, mark, name);
    if value == None then None else ReadWord(value.value)
  }

  /** The closing member: everything up to the closing brace. */
  function ReadLast(text: string, name: string): Option<string> {
    var raw := ReadMember(text, ',', name);
    if raw == None || raw.value == "" || raw.value[|raw.value| - 1] != '}' then None
    else Some(raw.value[..|raw.value| - 1])
  }

  // ----- what is written is read -----

  lemma ReadTextMember(mark: char, name: string, value: string, rest: string)
    requires Inert(value)
    ensures ReadText(TextMember(mark, name, value, rest), mark, name) == Some((value, rest))
  {
    ReadMemberText(mark, name, Quote(value), rest);
    ReadQuotedInert(value, rest);
  }

  lemma ReadLastMember(name: string, raw: string)
    ensures ReadLast(LastMember(name, raw), name) == Some(Escape(raw))
  {
    ReadMemberText(',', name, Escape(raw), ['}']);
    assert (Escape(raw) + ['}'])[..|Escape(raw)|] == Escape(raw);
  }

  lemma {:induction false} DigitsThenMark(digits: string, rest: string)
    requires AllDigits(digits) && rest != "" && !IsDigit(rest[0])
    ensures LeadingDigits(digits + rest) == |digits|
  {
    if digits == "" {
      assert digits + rest == rest;
    } else {
      assert (digits + rest)[1..] == digits[1..] + rest;
      DigitsThenMark(digits[1..], rest);
    }
  }

  lemma {:induction false} NoLeadingZero(n: nat)
    ensures Decimal(n) != "" && (n > 0 ==> Decimal(n)[0] != '0') && (n < 10 ==> |Decimal(n)| == 1)
  {
    if n >= 10 { NoLeadingZero(n / 10); }
  }

  lemma ReadDecimal(n: Word, rest: string)
    requires rest != "" && !IsDigit(rest[0])
    ensures ReadWord(Decimal(n) + rest) == Some((n, rest))
  {
    ValueOfDecimal(n);
    NoLeadingZero(n);
    DigitsThenMark(Decimal(n), rest);
    var text := Decimal(n) + rest;
    assert text[..|Decimal(n)|] == Decimal(n) && text[|Decimal(n)|..] == rest && text[0] == Decimal(n)[0];
  }

  lemma ReadNumberMember(mark: char, name: string, value: Word, rest: string)
    requires rest != "" && !IsDigit(rest[0])
    ensures ReadNumber(NumberMember(mark, name, value, rest), mark, name) == Some((value, rest))
  {
    ReadMemberText(mark, name, Decimal(value), rest);
    ReadDecimal(value, rest);
  }

  // ----- what is written is left alone -----

  lemma InertIsFixed(s: string)
    requires Inert(s)
    ensures Fixed(s)
  {
    forall rest
      ensures Scan(s + rest, Outside, true) == s + Scan(rest, Outside, true)
    {
      ScanInert(s, rest, Outside, true);
    }
  }

  lemma TextMemberIsFixed(mark: char, name: string, value: string, rest: string)
    requires (mark == '{' || mark == ',') && Inert(name) && Inert(value) && Fixed(rest)
    ensures Fixed(TextMember(mark, name, value, rest))
  {
    QuoteIsFixed(value);
    MemberIsFixed(name, Quote(value), rest);
    MarkIsFixed(mark);
    FixedConcat([mark], Member(name, Quote(value), rest));
  }

  lemma NumberMemberIsFixed(mark: char, name: string, value: nat, rest: string)
    requires (mark == '{' || mark == ',') && Inert(name) && Fixed(rest)
    ensures Fixed(NumberMember(mark, name, value, rest))
  {
    DigitsAreInert(value);
    InertIsFixed(Decimal(value));
    MemberIsFixed(name, Decimal(value), rest);
    MarkIsFixed(mark);
    FixedConcat([mark], Member(name, Decimal(value), rest));
  }

  lemma DigitsAreInert(n: nat)
    ensures Inert(Decimal(n))
  {
    ValueOfDecimal(n);
  }

  lemma LastMemberIsFixed(name: string, raw: string)
    requires Inert(name) && Lexical(raw, Outside)
    ensures Fixed(LastMember(name, raw))
  {
    EscapeIsFixed(raw);
    MarkIsFixed('}');
    MarkIsFixed(',');
    MemberIsFixed(name, Escape(raw), ['}']);
    FixedConcat([','], Member(name, Escape(raw), ['}']));
  }

  // ----- values without anything to escape -----

  lemma TimeIsInert(t: Time)
    requires Writable(t)
    ensures Inert(Format(t))
  {
    FormatIsPlain(t);
    var s := Format(t);
    forall i | 0 <= i < |s|
      ensures InertChar(s[i])
    {
      assert s[i] in s;
    }
  }

  lemma KindIsInert(kind: string)
    requires Matches(DottedName(), kind)
    ensures Inert(kind)
  {
    forall i | 0 <= i < |kind|
      ensures InertChar(kind[i])
    {
      if Foreign(kind[i]) { IdentifiersAreClean(kind, kind[i]); }
    }
  }

  lemma HexIsInert(s: string, n: nat)
    requires LowerHex(s, n)
    ensures Inert(s)
  {
    forall i | 0 <= i < |s|
      ensures InertChar(s[i])
    {
      assert s[i] in s;
    }
  }
}
