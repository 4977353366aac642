/**
 Raw JSON text token by token, without a scanner: what whitespace, strings and escapes are, which of them
 `json.Compact` leaves out and which `json.Marshal` writes differently.
 */
module JsonTokens {
  import opened Text
  import opened JsonText
  import opened JsonMeaning

  /** Inside a string: a byte, a backslash and the byte behind it, or one of the two line separators. */
  datatype Unit = Plain(c: char) | Backslashed(c: char) | LineSeparator | ParagraphSeparator {
    predicate Valid() {
      && (Plain? ==> c != '"' && c != '\\')
      && (Backslashed? ==> c in ['"', '\\', '/', 'b', 'f', 'n', 'r', 't', 'u'])
    }

    function Raw(): (s: string)
      ensures s != ""
    {
      match this
      case Plain(c) => [c]
      case Backslashed(c) => ['\\', c]
      case LineSeparator => "\U{E2}\U{80}\U{A8}"
      case ParagraphSeparator => "\U{E2}\U{80}\U{A9}"
    }

    /** As `json.Marshal` writes it. */
    function Marshalled(): (s: string)
      ensures s != ""
    {
      match this
      case Plain(c) => if c == '<' then "\\u003c" else if c == '>' then "\\u003e" else if c == '&' then "\\u0026" else [c]
      case Backslashed(c) => ['\\', c]
      case LineSeparator => "\\u2028"
      case ParagraphSeparator => "\\u2029"
    }
  }

  datatype Token = Blank(c: char) | Mark(c: char) | Literal(units: seq<Unit>) {
    predicate Valid() {
      match this
      case Blank(c) => c in [' ', '\t', '\n', '\r']
      case Mark(c) => ' ' < c <= '~' && c !in ['"', '<', '>', '&']
      case Literal(units) => ValidUnits(units)
    }
  }

  /** A line separator is told as one: its three bytes never stand as three. */
  predicate Told(units: seq<Unit>) {
    forall i :: 0 <= i < |units| - 2 && units[i] == Plain('\U{E2}') && units[i + 1] == Plain('\U{80}') ==>
      units[i + 2] != Plain('\U{A8}') && units[i + 2] != Plain('\U{A9}')
  }

  predicate ValidUnits(units: seq<Unit>) {
    (forall unit :: unit in units ==> unit.Valid()) && Told(units)
  }

  function Raw(units: seq<Unit>): string {
    if units == [] then "" else units[0].Raw() + Raw(units[1..])
  }

  function Marshalled(units: seq<Unit>): string {
    if units == [] then "" else units[0].Marshalled() + Marshalled(units[1..])
  }

  /** The text of the tokens. */
  function Source(tokens: seq<Token>): string {
    if tokens == [] then ""
    else
      var rest := Source(tokens[1..]);
      match tokens[0]
      case Blank(c) => [c] + rest
      case Mark(c) => [c] + rest
      case Literal(units) => ['"'] + (Raw(units) + (['"'] + rest))
  }

  /** The same without whitespace between tokens. */
  function Compacted(tokens: seq<Token>): string {
    if tokens == [] then ""
    else
      var rest := Compacted(tokens[1..]);
      match tokens[0]
      case Blank(c) => rest
      case Mark(c) => [c] + rest
      case Literal(units) => ['"'] + (Raw(units) + (['"'] + rest))
  }

  /** And with what is inside the strings as `json.Marshal` writes it. */
  function Encoded(tokens: seq<Token>): string {
    if tokens == [] then ""
    else
      var rest := Encoded(tokens[1..]);
      match tokens[0]
      case Blank(c) => rest
      case Mark(c) => [c] + rest
      case Literal(units) => ['"'] + (Marshalled(units) + (['"'] + rest))
  }

  predicate Valid(tokens: seq<Token>) {
    forall token :: token in tokens ==> token.Valid()
  }

  // ----- the scanner, token by token -----

  lemma ScanCopies(c: char, rest: string, mode: Mode, escape: bool)
    requires !(mode == Outside && IsSpace(c)) && !(escape && (IsHtml(c) || IsLineSeparator([c] + rest)))
    ensures Scan([c] + rest, mode, escape) == [c] + Scan(rest, Next(mode, c), escape)
  {
    assert ([c] + rest)[1..] == rest;
  }

  /** Bytes that both scans copy. */
  lemma CompactUnit(unit: Unit, rest: string)
    requires unit.Valid()
    ensures Scan(unit.Raw() + rest, InString, false) == unit.Raw() + Scan(rest, InString, false)
  {
    hide Scan;
    match unit
    case Plain(c) => ScanCopies(c, rest, InString, false);
    case Backslashed(c) => CopyTwo('\\', c, rest, false);
    case LineSeparator => CopyThree('\U{E2}', '\U{80}', '\U{A8}', rest);
    case ParagraphSeparator => CopyThree('\U{E2}', '\U{80}', '\U{A9}', rest);
  }

  lemma CopyTwo(a: char, b: char, rest: string, escape: bool)
    requires a == '\\' && !IsHtml(b) && b != '\U{E2}'
    ensures Scan([a, b] + rest, InString, escape) == [a, b] + Scan(rest, InString, escape)
  {
    hide Scan;
    assert [a, b] + rest == [a] + ([b] + rest);
    ScanCopies(a, [b] + rest, InString, escape);
    ScanCopies(b, rest, Escaped, escape);
  }

  lemma CopyThree(a: char, b: char, c: char, rest: string)
    requires a != '"' && b != '"' && c != '"' && a != '\\' && b != '\\' && c != '\\'
    ensures Scan([a, b, c] + rest, InString, false) == [a, b, c] + Scan(rest, InString, false)
  {
    hide Scan;
    assert [a, b, c][0] == a && [a, b, c][1] == b && [a, b, c][2] == c;
    assert [a, b, c] + rest == [a] + ([b] + ([c] + rest));
    ScanCopies(a, [b] + ([c] + rest), InString, false);
    ScanCopies(b, [c] + rest, InString, false);
    ScanCopies(c, rest, InString, false);
  }

  lemma MarshalUnit(unit: Unit, rest: string)
    requires unit.Valid() && (unit.Plain? ==> !IsLineSeparator([unit.c] + rest))
    ensures Scan(unit.Raw() + rest, InString, true) == unit.Marshalled() + Scan(rest, InString, true)
  {
    match unit
    case Plain(c) =>
      if IsHtml(c) { MarshalHtml(c, rest); } else { hide Scan; ScanCopies(c, rest, InString, true); }
    case Backslashed(c) => CopyTwo('\\', c, rest, true);
    case LineSeparator => MarshalSeparator('\U{A8}', rest);
    case ParagraphSeparator => MarshalSeparator('\U{A9}', rest);
  }

  lemma MarshalHtml(c: char, rest: string)
    requires IsHtml(c)
    ensures Scan([c] + rest, InString, true)
         == (if c == '<' then "\\u003c" else if c == '>' then "\\u003e" else "\\u0026") + Scan(rest, InString, true)
  {
    assert ([c] + rest)[1..] == rest;
    assert Unicode(HtmlCode(c)) == if c == '<' then "\\u003c" else if c == '>' then "\\u003e" else "\\u0026";
  }

  lemma MarshalSeparator(last: char, rest: string)
    requires last == '\U{A8}' || last == '\U{A9}'
    ensures Scan(['\U{E2}', '\U{80}', last] + rest, InString, true)
         == (if last == '\U{A8}' then "\\u2028" else "\\u2029") + Scan(rest, InString, true)
  {
    var s := ['\U{E2}', '\U{80}', last] + rest;
    ScanSeparator(s, InString);
    hide Scan;
    assert s[3..] == rest;
    assert Unicode(SeparatorCode(last)) == if last == '\U{A8}' then "\\u2028" else "\\u2029";
  }

  /** A unit that starts with a byte of its own is that byte. */
  lemma StartsPlain(units: seq<Unit>, tail: string, c: char)
    requires c == '\U{80}' || c == '\U{A8}' || c == '\U{A9}'
    requires (Raw(units) + (['"'] + tail))[0] == c
    ensures units != [] && units[0] == Plain(c) && (Raw(units) + (['"'] + tail))[1..] == Raw(units[1..]) + (['"'] + tail)
  {
    if units != [] {
      var raw := units[0].Raw();
      assert Raw(units) == raw + Raw(units[1..]) && raw[0] == c;
    }
  }

  lemma NotSeparator(units: seq<Unit>, tail: string)
    requires units != [] && units[0].Plain? && Told(units)
    ensures !IsLineSeparator([units[0].c] + (Raw(units[1..]) + (['"'] + tail)))
  {
    var rest := Raw(units[1..]) + (['"'] + tail);
    var s := [units[0].c] + rest;
    if IsLineSeparator(s) {
      assert s[1] == rest[0] && s[2] == rest[1] && rest[1] == rest[1..][0];
      StartsPlain(units[1..], tail, s[1]);
      assert units[1..][1..] == units[2..] && units[1] == Plain(s[1]);
      StartsPlain(units[2..], tail, s[2]);
      assert false;
    }
  }

  lemma TailIsValid(units: seq<Unit>)
    requires units != [] && ValidUnits(units)
    ensures units[0].Valid() && ValidUnits(units[1..])
  {
    var tail := units[1..];
    assert forall i :: 0 <= i < |tail| ==> tail[i] == units[i + 1];
  }

  /** The inside of a string and its closing quote. */
  lemma {:induction false} ScanUnits(units: seq<Unit>, tail: string)
    requires ValidUnits(units)
    ensures Scan(Raw(units) + (['"'] + tail), InString, false) == Raw(units) + (['"'] + Scan(tail, Outside, false))
    ensures Scan(Raw(units) + (['"'] + tail), InString, true) == Marshalled(units) + (['"'] + Scan(tail, Outside, true))
  {
    hide Scan, Unit.Raw, Unit.Marshalled, Unit.Valid, ValidUnits, IsLineSeparator;
    if units == [] {
      assert Raw(units) + (['"'] + tail) == ['"'] + tail;
      assert forall s: string :: "" + s == s;
      QuoteEnds(tail);
    } else {
      TailIsValid(units);
      ScanUnits(units[1..], tail);
      var rest := Raw(units[1..]) + (['"'] + tail);
      assert Raw(units) + (['"'] + tail) == units[0].Raw() + rest;
      CompactUnit(units[0], rest);
      if units[0].Plain? { Unfold(units); NotSeparator(units, tail); }
      MarshalUnit(units[0], rest);
    }
  }

  lemma Unfold(units: seq<Unit>)
    requires ValidUnits(units)
    ensures Told(units)
  {
  }

  lemma QuoteEnds(tail: string)
    ensures forall escape :: Scan(['"'] + tail, InString, escape) == ['"'] + Scan(tail, Outside, escape)
  {
    forall escape: bool
      ensures Scan(['"'] + tail, InString, escape) == ['"'] + Scan(tail, Outside, escape)
    {
      ScanCopies('"', tail, InString, escape);
    }
  }

  /** `json.Compact` and the encoder, token by token. */
  lemma {:induction false} ScanIsTokens(tokens: seq<Token>)
    requires Valid(tokens)
    ensures Compact(Source(tokens)) == Compacted(tokens)
    ensures Escape(Source(tokens)) == Encoded(tokens)
  {
    if tokens != [] {
      ScanIsTokens(tokens[1..]);
      assert tokens[0].Valid();
      var rest := Source(tokens[1..]);
      match tokens[0]
      case Blank(c) => BlankIsDropped(c, rest);
      case Mark(c) => MarkIsCopied(c, rest);
      case Literal(units) => LiteralIsScanned(units, rest);
    }
  }

  lemma BlankIsDropped(c: char, rest: string)
    requires c in [' ', '\t', '\n', '\r']
    ensures Compact([c] + rest) == Compact(rest) && Escape([c] + rest) == Escape(rest)
  {
    assert ([c] + rest)[1..] == rest;
  }

  lemma MarkIsCopied(c: char, rest: string)
    requires Mark(c).Valid()
    ensures Compact([c] + rest) == [c] + Compact(rest) && Escape([c] + rest) == [c] + Escape(rest)
  {
    ScanCopies(c, rest, Outside, false);
    ScanCopies(c, rest, Outside, true);
  }

  lemma LiteralIsScanned(units: seq<Unit>, rest: string)
    requires ValidUnits(units)
    ensures Compact(['"'] + (Raw(units) + (['"'] + rest))) == ['"'] + (Raw(units) + (['"'] + Compact(rest)))
    ensures Escape(['"'] + (Raw(units) + (['"'] + rest))) == ['"'] + (Marshalled(units) + (['"'] + Escape(rest)))
  {
    hide Scan, Raw, Marshalled, ValidUnits;
    ScanCopies('"', Raw(units) + (['"'] + rest), Outside, false);
    ScanCopies('"', Raw(units) + (['"'] + rest), Outside, true);
    ScanUnits(units, rest);
  }

  // ----- every text the grammar allows is such a list of tokens -----

  /** One unit, from inside a string. */
  lemma TakeUnit(s: string) returns (unit: Unit, rest: string)
    requires s != "" && s[0] != '"' && Lexical(s, InString)
    ensures unit.Valid() && s == unit.Raw() + rest && Lexical(rest, InString)
    ensures unit.Plain? ==> !IsLineSeparator(s)
  {
    if IsLineSeparator(s) {
      SeparatorIsInside(s, InString);
      unit, rest := if s[2] == '\U{A8}' then LineSeparator else ParagraphSeparator, s[3..];
      assert s == [s[0], s[1], s[2]] + rest;
    } else if s[0] == '\\' {
      assert Lexical(s[1..], Escaped);
      assert s[1..] != "" && s[1..][0] == s[1] && s[1..][1..] == s[2..];
      unit, rest := Backslashed(s[1]), s[2..];
      assert s == [s[0], s[1]] + rest;
    } else {
      unit, rest := Plain(s[0]), s[1..];
      assert s == [s[0]] + rest;
    }
  }

  lemma ToldBefore(unit: Unit, units: seq<Unit>, tail: string)
    requires Told(units) && (unit.Plain? ==> !IsLineSeparator(unit.Raw() + (Raw(units) + (['"'] + tail))))
    ensures Told([unit] + units)
  {
    var all := [unit] + units;
    forall i | 0 <= i < |all| - 2 && all[i] == Plain('\U{E2}') && all[i + 1] == Plain('\U{80}')
      ensures all[i + 2] != Plain('\U{A8}') && all[i + 2] != Plain('\U{A9}')
    {
      if i == 0 {
        assert units[0] == Plain('\U{80}') && Raw(units) == ['\U{80}'] + Raw(units[1..]);
        if units[1].Plain? { assert Raw(units[1..]) == [units[1].c] + Raw(units[1..][1..]); }
        var s := unit.Raw() + (Raw(units) + (['"'] + tail));
        assert s[0] == '\U{E2}' && s[1] == '\U{80}';
        if units[1].Plain? { assert s[2] == units[1].c; }
      } else {
        assert all[i] == units[i - 1] && all[i + 1] == units[i] && all[i + 2] == units[i + 1];
      }
    }
  }

  lemma UnitBefore(unit: Unit, units: seq<Unit>, tail: string)
    requires unit.Valid() && ValidUnits(units)
    requires unit.Plain? ==> !IsLineSeparator(unit.Raw() + (Raw(units) + (['"'] + tail)))
    ensures ValidUnits([unit] + units)
    ensures Raw([unit] + units) + (['"'] + tail) == unit.Raw() + (Raw(units) + (['"'] + tail))
  {
    ToldBefore(unit, units, tail);
    hide Unit.Valid, Unit.Raw, Told;
    assert ([unit] + units)[1..] == units;
  }

  /** The inside of a string. */
  lemma {:induction false} TakeUnits(s: string) returns (units: seq<Unit>, rest: string)
    requires Lexical(s, InString)
    ensures ValidUnits(units) && s == Raw(units) + (['"'] + rest) && Lexical(rest, Outside)
    decreases |s|
  {
    if s[0] == '"' {
      units, rest := [], s[1..];
      assert s == "" + (['"'] + rest);
    } else {
      hide Lexical, Raw, Unit.Raw, Unit.Valid, ValidUnits;
      var unit, more := TakeUnit(s);
      var others;
      others, rest := TakeUnits(more);
      UnitBefore(unit, others, rest);
      units := [unit] + others;
    }
  }

  /** Every text of the lexical form is the text of valid tokens. */
  lemma {:induction false} TokensOf(s: string) returns (tokens: seq<Token>)
    requires Lexical(s, Outside)
    ensures Valid(tokens) && Source(tokens) == s
    decreases |s|
  {
    if s == "" {
      tokens := [];
    } else if s[0] == '"' {
      var units, rest := TakeUnits(s[1..]);
      var more := TokensOf(rest);
      tokens := [Literal(units)] + more;
      assert tokens[1..] == more && s == ['"'] + s[1..];
    } else {
      var more := TokensOf(s[1..]);
      var token := if s[0] in [' ', '\t', '\n', '\r'] then Blank(s[0]) else Mark(s[0]);
      tokens := [token] + more;
      assert tokens[1..] == more && s == [s[0]] + s[1..];
    }
  }

  /** The two forms of a text, whatever tokens it is read as. */
  lemma FormsOfText(s: string)
    requires Lexical(s, Outside)
    ensures exists tokens :: Valid(tokens) && Source(tokens) == s && Compact(s) == Compacted(tokens) && Escape(s) == Encoded(tokens)
  {
    var tokens := TokensOf(s);
    ScanIsTokens(tokens);
  }

  // ----- meaning -----

  /** The strings hold no `\u`. */
  predicate WithoutUnicode(units: seq<Unit>) {
    Backslashed('u') !in units
  }

  lemma UnitMeaning(unit: Unit, rest: string)
    requires unit.Valid() && unit != Backslashed('u')
    ensures Meaning(unit.Raw() + rest, InString) == unit.Raw() + Meaning(rest, InString)
  {
    var s := unit.Raw() + rest;
    match unit
    case Plain(c) => assert s[1..] == rest;
    case Backslashed(c) => TwoMeaning(c, rest);
    case LineSeparator => SeparatorMeaning(s); assert s[3..] == rest;
    case ParagraphSeparator => SeparatorMeaning(s); assert s[3..] == rest;
  }

  lemma TwoMeaning(c: char, rest: string)
    requires c != 'u'
    ensures Meaning(['\\', c] + rest, InString) == ['\\', c] + Meaning(rest, InString)
  {
    var s := ['\\', c] + rest;
    assert s[1..][1..] == rest && s[1..][0] == c;
    assert Meaning(s[1..], Escaped) == [c] + Meaning(rest, InString);
  }

  lemma RawUnfolds(units: seq<Unit>, tail: string)
    requires units != []
    ensures Raw(units) + tail == units[0].Raw() + (Raw(units[1..]) + tail)
  {
    hide Unit.Raw;
  }

  lemma QuoteMeaning(tail: string)
    ensures Meaning(Raw([]) + (['"'] + tail), InString) == Raw([]) + (['"'] + Meaning(tail, Outside))
  {
    assert Raw([]) + (['"'] + tail) == ['"'] + tail && (['"'] + tail)[1..] == tail;
    assert Coded(['"'] + tail) == None;
  }

  lemma {:induction false} UnitsMeaning(units: seq<Unit>, tail: string)
    requires ValidUnits(units) && WithoutUnicode(units)
    ensures Meaning(Raw(units) + (['"'] + tail), InString) == Raw(units) + (['"'] + Meaning(tail, Outside))
  {
    hide Meaning, Raw, Unit.Raw, Unit.Valid, ValidUnits;
    if units == [] {
      QuoteMeaning(tail);
    } else {
      TailIsValid(units);
      UnitsMeaning(units[1..], tail);
      UnitMeaning(units[0], Raw(units[1..]) + (['"'] + tail));
      RawUnfolds(units, ['"'] + tail);
      RawUnfolds(units, ['"'] + Meaning(tail, Outside));
    }
  }

  lemma LiteralMeaning(units: seq<Unit>, rest: string)
    requires ValidUnits(units) && WithoutUnicode(units)
    ensures Meaning(['"'] + (Raw(units) + (['"'] + rest)), Outside) == ['"'] + (Raw(units) + (['"'] + Meaning(rest, Outside)))
  {
    var s := ['"'] + (Raw(units) + (['"'] + rest));
    assert s[1..] == Raw(units) + (['"'] + rest);
    UnitsMeaning(units, rest);
    hide Raw, ValidUnits;
  }

  lemma BlankMeaning(c: char, rest: string)
    requires Blank(c).Valid()
    ensures Meaning([c] + rest, Outside) == Meaning(rest, Outside)
  {
    assert ([c] + rest)[1..] == rest;
  }

  lemma MarkMeaning(c: char, rest: string)
    requires Mark(c).Valid()
    ensures Meaning([c] + rest, Outside) == [c] + Meaning(rest, Outside)
  {
    hide Coded, Decoded;
    assert ([c] + rest)[1..] == rest;
  }

  /** A text without `\u` means itself, less the whitespace; and so does the encoder's form, decoded. */
  lemma {:induction false} MeaningIsTokens(tokens: seq<Token>)
    requires Valid(tokens) && forall units :: Literal(units) in tokens ==> WithoutUnicode(units)
    ensures Meaning(Source(tokens), Outside) == Compacted(tokens)
  {
    if tokens != [] {
      MeaningIsTokens(tokens[1..]);
      assert tokens[0].Valid() && tokens[0] in tokens;
      var rest := Source(tokens[1..]);
      hide Meaning, Raw, WithoutUnicode;
      match tokens[0]
      case Blank(c) => BlankMeaning(c, rest);
      case Mark(c) => MarkMeaning(c, rest);
      case Literal(units) => LiteralMeaning(units, rest);
    }
  }

  /** What the encoder writes for such a text means the text. */
  lemma EncodedMeaning(tokens: seq<Token>)
    requires Valid(tokens) && forall units :: Literal(units) in tokens ==> WithoutUnicode(units)
    requires Lexical(Source(tokens), Outside)
    ensures Meaning(Encoded(tokens), Outside) == Compacted(tokens)
  {
    hide Meaning, Scan, Lexical;
    MeaningIsTokens(tokens);
    ScanIsTokens(tokens);
    ScanKeepsMeaning(Source(tokens), Outside, true);
  }

  // ----- the tests on a text -----

  predicate EscapableAt(s: string, i: nat)
    requires i < |s|
  {
    s[i] == '<' || s[i] == '>' || s[i] == '&'
    || (i + 2 < |s| && s[i] == '\U{E2}' && s[i + 1] == '\U{80}' && (s[i + 2] == '\U{A8}' || s[i + 2] == '\U{A9}'))
  }

  /** The characters `json.Marshal` escapes, by position. */
  lemma {:induction false} EscapableIs(s: string)
    ensures HasEscapable(s) <==> exists i :: 0 <= i < |s| && EscapableAt(s, i)
  {
    if s != "" {
      EscapableIs(s[1..]);
      assert IsHtml(s[0]) || IsLineSeparator(s) <==> EscapableAt(s, 0);
      forall i | 0 <= i < |s[1..]|
        ensures EscapableAt(s[1..], i) <==> EscapableAt(s, i + 1)
      {
      }
      if i :| 0 <= i < |s| && EscapableAt(s, i) {
        if i > 0 { assert EscapableAt(s[1..], i - 1); }
      }
    }
  }

  predicate IsPadding(c: char) {
    c in [' ', '\t', '\n', '\U{0B}', '\U{0C}', '\r']
  }

  lemma {:induction false} LeadingAt(s: string) returns (i: nat)
    requires Leading(s).Some?
    ensures i < |s| && Leading(s) == Some(s[i]) && !IsPadding(s[i]) && forall k :: 0 <= k < i ==> IsPadding(s[k])
  {
    i := 0;
    if IsTrimmed(s[0]) {
      var more := LeadingAt(s[1..]);
      i := more + 1;
    }
  }

  lemma {:induction false} TrailingAt(s: string) returns (j: nat)
    requires Trailing(s).Some?
    ensures j < |s| && Trailing(s) == Some(s[j]) && !IsPadding(s[j]) && forall k :: j < k < |s| ==> IsPadding(s[k])
  {
    j := 0;
    if Trailing(s[1..]).Some? {
      var more := TrailingAt(s[1..]);
      j := more + 1;
    } else {
      NothingTrails(s[1..]);
    }
  }

  lemma {:induction false} NothingTrails(s: string)
    requires Trailing(s) == None
    ensures forall k :: 0 <= k < |s| ==> IsPadding(s[k])
  {
    if s != "" { NothingTrails(s[1..]); }
  }

  lemma {:induction false} LeadingIs(s: string, i: nat)
    requires i < |s| && !IsPadding(s[i]) && forall k :: 0 <= k < i ==> IsPadding(s[k])
    ensures Leading(s) == Some(s[i])
  {
    if i > 0 {
      assert IsPadding(s[0]);
      LeadingIs(s[1..], i - 1);
    }
  }

  lemma {:induction false} TrailingIs(s: string, j: nat)
    requires j < |s| && !IsPadding(s[j]) && forall k :: j < k < |s| ==> IsPadding(s[k])
    ensures Trailing(s) == Some(s[j])
  {
    if j > 0 {
      TrailingIs(s[1..], j - 1);
    } else {
      AllPadding(s[1..]);
    }
  }

  lemma {:induction false} AllPadding(s: string)
    requires forall k :: 0 <= k < |s| ==> IsPadding(s[k])
    ensures Trailing(s) == None
  {
    if s != "" {
      assert IsPadding(s[0]);
      AllPadding(s[1..]);
    }
  }

  /** The object test: a `{` with only padding before it, and behind that a `}` with only padding after it. */
  lemma ObjectTextIs(s: string)
    ensures IsObjectText(s)
       <==> exists i, j :: && 0 <= i < j < |s| && s[i] == '{' && s[j] == '}'
                           && (forall k :: 0 <= k < i ==> IsPadding(s[k])) && (forall k :: j < k < |s| ==> IsPadding(s[k]))
  {
    hide Leading, Trailing;
    if IsObjectText(s) {
      var i := LeadingAt(s);
      var j := TrailingAt(s);
      assert 0 <= i < j < |s|;
    }
    if i, j :| && 0 <= i < j < |s| && s[i] == '{' && s[j] == '}'
               && (forall k :: 0 <= k < i ==> IsPadding(s[k])) && (forall k :: j < k < |s| ==> IsPadding(s[k])) {
      LeadingIs(s, i);
      TrailingIs(s, j);
    }
  }
}
