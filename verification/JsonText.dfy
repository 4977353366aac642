/**
 What Go's encoder does to raw JSON text: `json.Compact` drops whitespace outside strings, and `json.Marshal`
 of a `json.RawMessage` also escapes `<`, `>`, `&`, U+2028 and U+2029 (bytes E2 80 A8 and E2 80 A9).
 Text is a string of bytes.
 */
module JsonText {
  import opened Text

  datatype Mode = Outside | InString | Escaped

  function Next(mode: Mode, c: char): Mode {
    match mode
    case Outside => if c == '"' then InString else Outside
    case InString => if c == '"' then Outside else if c == '\\' then Escaped else InString
    case Escaped => InString
  }

  /** The mode after any bytes that are neither quotes nor backslashes. */
  function Resume(mode: Mode): Mode {
    if mode == Outside then Outside else InString
  }

  function After(s: string, mode: Mode): Mode {
    if s == "" then mode else After(s[1..], Next(mode, s[0]))
  }

  /** The insignificant whitespace of section 2 of RFC 8259. */
  predicate IsSpace(c: char) {
    c == ' ' || c == '\t' || c == '\n' || c == '\r'
  }

  predicate IsHtml(c: char) {
    c == '<' || c == '>' || c == '&'
  }

  predicate IsLineSeparator(s: string) {
    |s| >= 3 && s[0] == '\U{E2}' && s[1] == '\U{80}' && (s[2] == '\U{A8}' || s[2] == '\U{A9}')
  }

  /** The four hexadecimal digits an escaped character is written with. */
  function HtmlCode(c: char): string {
    if c == '<' then "003c" else if c == '>' then "003e" else "0026"
  }

  function SeparatorCode(c: char): string {
    if c == '\U{A8}' then "2028" else "2029"
  }

  function Unicode(code: string): string {
    ['\\'] + (['u'] + code)
  }

  /** One pass of the encoder's scanner over text, from a mode, escaping or not. */
  function Scan(s: string, mode: Mode, escape: bool): string {
    if s == "" then ""
    else if escape && IsHtml(s[0]) then Unicode(HtmlCode(s[0])) + Scan(s[1..], Next(mode, s[0]), escape)
    else if escape && IsLineSeparator(s) then
      Unicode(SeparatorCode(s[2])) + Scan(s[3..], Resume(mode), escape)
    else if mode == Outside && IsSpace(s[0]) then Scan(s[1..], Outside, escape)
    else [s[0]] + Scan(s[1..], Next(mode, s[0]), escape)
  }

  /** `json.Compact`. */
  function Compact(s: string): string {
    Scan(s, Outside, false)
  }

  /** What `json.Marshal` writes for a raw message. */
  function Escape(s: string): string {
    Scan(s, Outside, true)
  }

  // ----- lexical form -----

  /** The bytes RFC 8259's grammar leaves room for in each mode (its sections 2 and 7). */
  predicate Allowed(c: char, mode: Mode) {
    match mode
    case Outside => (' ' <= c <= '~' && !IsHtml(c)) || IsSpace(c)
    case InString => ' ' <= c
    case Escaped => c in {'"', '\\', '/', 'b', 'f', 'n', 'r', 't', 'u'}
  }

  /** Every byte is allowed where it stands and every string is closed. All valid JSON text has this form. */
  predicate Lexical(s: string, mode: Mode) {
    if s == "" then mode == Outside else Allowed(s[0], mode) && Lexical(s[1..], Next(mode, s[0]))
  }

  lemma SeparatorIsInside(s: string, mode: Mode)
    requires Lexical(s, mode) && IsLineSeparator(s)
    ensures mode != Outside && Lexical(s[3..], InString)
  {
    assert s[1..][1..] == s[2..] && s[2..][1..] == s[3..];
    assert Lexical(s[1..], InString) && Lexical(s[2..], InString);
  }

  // ----- scanning an already scanned prefix -----

  lemma ScanPlain(c: char, rest: string, mode: Mode, escape: bool)
    requires !IsHtml(c) && c != '\U{E2}' && !(mode == Outside && IsSpace(c))
    ensures Scan([c] + rest, mode, escape) == [c] + Scan(rest, Next(mode, c), escape)
  {
    assert ([c] + rest)[1..] == rest;
  }

  /** Bytes every scan copies and no mode notices. */
  predicate InertChar(c: char) {
    '0' <= c <= '9' || 'A' <= c <= 'Z' || 'a' <= c <= 'z' || c == '-' || c == '_' || c == '.' || c == ':' || c == '+'
  }

  predicate Inert(s: string) {
    forall i :: 0 <= i < |s| ==> InertChar(s[i])
  }

  lemma {:induction false} ScanInert(s: string, rest: string, mode: Mode, escape: bool)
    requires Inert(s) && mode != Escaped
    ensures Scan(s + rest, mode, escape) == s + Scan(rest, mode, escape)
    ensures After(s + rest, mode) == After(rest, mode)
  {
    if s == "" {
      assert s + rest == rest;
    } else {
      assert s + rest == [s[0]] + (s[1..] + rest);
      ScanPlain(s[0], s[1..] + rest, mode, escape);
      ScanInert(s[1..], rest, mode, escape);
    }
  }

  lemma ScanBackslashU(body: string, mode: Mode, escape: bool)
    ensures Scan(['\\'] + (['u'] + body), mode, escape) == ['\\'] + (['u'] + Scan(body, Resume(mode), escape))
  {
    ScanPlain('\\', ['u'] + body, mode, escape);
    ScanPlain('u', body, Next(mode, '\\'), escape);
  }

  lemma Regroup(code: string, rest: string)
    ensures Unicode(code) + rest == ['\\'] + (['u'] + (code + rest))
  {
  }

  /** An escape sequence is copied by a later scan, which goes on as after the escaped character. */
  lemma ScanUnicode(code: string, rest: string, mode: Mode, escape: bool)
    requires Inert(code)
    ensures Scan(Unicode(code) + rest, mode, escape) == Unicode(code) + Scan(rest, Resume(mode), escape)
  {
    Regroup(code, rest);
    ScanBackslashU(code + rest, mode, escape);
    ScanInert(code, rest, Resume(mode), escape);
    Regroup(code, Scan(rest, Resume(mode), escape));
  }

  /** Inside a string a scan starts with the text's own bytes, unless it escapes. */
  lemma InsideStarts(s: string, escape: bool)
    requires !(escape && IsLineSeparator(['\U{E2}'] + s))
    ensures !IsLineSeparator(['\U{E2}'] + s) ==> !IsLineSeparator(['\U{E2}'] + Scan(s, InString, escape))
  {
    var out := Scan(s, InString, escape);
    if |out| >= 2 && out[0] == '\U{80}' && (out[1] == '\U{A8}' || out[1] == '\U{A9}') {
      assert s[0] == '\U{80}';
      assert out[1..] == Scan(s[1..], InString, escape);
      assert s[1] == out[1];
      assert ['\U{E2}'] + s == [('\U{E2}')] + s && (['\U{E2}'] + s)[1] == s[0] && (['\U{E2}'] + s)[2] == s[1];
    }
  }

  // ----- scanning twice -----

  lemma ScanTwiceSeparator(s: string, mode: Mode)
    requires Lexical(s, mode) && IsLineSeparator(s)
    requires Scan(Scan(s[3..], InString, false), InString, true) == Scan(s[3..], InString, true)
    ensures Scan(Scan(s, mode, false), mode, true) == Scan(s, mode, true)
  {
    SeparatorIsInside(s, mode);
    var tail := Scan(s[3..], InString, false);
    assert s[1..][1..] == s[2..] && s[2..][1..] == s[3..];
    assert Scan(s[2..], InString, false) == [s[2]] + tail;
    assert Scan(s[1..], InString, false) == [s[1]] + ([s[2]] + tail);
    var once := [s[0]] + ([s[1]] + ([s[2]] + tail));
    assert Scan(s, mode, false) == once;
    assert IsLineSeparator(once) && once[3..] == tail;
  }

  /** A byte that neither scan treats specially. */
  lemma ScanTwiceOrdinary(s: string, mode: Mode, first: bool, second: bool)
    requires s != "" && !IsHtml(s[0]) && !(mode == Outside && IsSpace(s[0]))
    requires IsLineSeparator(s) ==> !first && !second
    requires mode == Outside ==> s[0] != '\U{E2}'
    requires var mode' := Next(mode, s[0]);
             Scan(Scan(s[1..], mode', first), mode', second) == Scan(s[1..], mode', first || second)
    ensures Scan(Scan(s, mode, first), mode, second) == Scan(s, mode, first || second)
  {
    var rest := Scan(s[1..], Next(mode, s[0]), first);
    assert Scan(s, mode, first) == [s[0]] + rest;
    assert ([s[0]] + rest)[1..] == rest;
    if s[0] == '\U{E2}' && second {
      assert s == ['\U{E2}'] + s[1..];
      InsideStarts(s[1..], first);
    }
  }

  /** Scanning a scan's output is one scan: compacting and escaping again change nothing. */
  lemma {:induction false} ScanTwice(s: string, mode: Mode, first: bool, second: bool)
    requires Lexical(s, mode)
    ensures Scan(Scan(s, mode, first), mode, second) == Scan(s, mode, first || second)
    decreases |s|
  {
    if s == "" {
    } else if first && IsHtml(s[0]) {
      ScanTwice(s[1..], Resume(mode), first, second);
      ScanUnicode(HtmlCode(s[0]), Scan(s[1..], Resume(mode), first), mode, second);
    } else if first && IsLineSeparator(s) {
      SeparatorIsInside(s, mode);
      ScanTwice(s[3..], InString, first, second);
      ScanUnicode(SeparatorCode(s[2]), Scan(s[3..], InString, first), mode, second);
    } else if mode == Outside && IsSpace(s[0]) {
      ScanTwice(s[1..], Outside, first, second);
    } else if IsHtml(s[0]) {
      ScanTwice(s[1..], Resume(mode), first, second);
      assert ([s[0]] + Scan(s[1..], Resume(mode), first))[1..] == Scan(s[1..], Resume(mode), first);
    } else if second && IsLineSeparator(s) {
      SeparatorIsInside(s, mode);
      ScanTwice(s[3..], InString, first, second);
      ScanTwiceSeparator(s, mode);
    } else {
      ScanTwice(s[1..], Next(mode, s[0]), first, second);
      ScanTwiceOrdinary(s, mode, first, second);
    }
  }

  /** Compacting never lengthens a text. */
  lemma {:induction false} CompactNotLonger(s: string, mode: Mode)
    ensures |Scan(s, mode, false)| <= |s|
  {
    if s != "" { CompactNotLonger(s[1..], Next(mode, s[0])); }
  }

  // ----- when escaping changes nothing but whitespace -----

  /** The text holds a character `json.Marshal` escapes. */
  predicate HasEscapable(s: string) {
    s != "" && (IsHtml(s[0]) || IsLineSeparator(s) || HasEscapable(s[1..]))
  }

  /** Escaping equals compacting exactly when there is nothing to escape. */
  lemma {:induction false} EscapeIsCompact(s: string, mode: Mode)
    ensures Scan(s, mode, true) == Scan(s, mode, false) <==> !HasEscapable(s)
  {
    if s != "" {
      EscapeIsCompact(s[1..], Next(mode, s[0]));
      var escaped, compact := Scan(s, mode, true), Scan(s, mode, false);
      if IsHtml(s[0]) || IsLineSeparator(s) {
        assert escaped[0] == '\\' && compact[0] == s[0];
      } else if !(mode == Outside && IsSpace(s[0])) {
        assert escaped[1..] == Scan(s[1..], Next(mode, s[0]), true) && compact[1..] == Scan(s[1..], Next(mode, s[0]), false);
      }
    }
  }

  // ----- concatenation -----

  lemma {:induction false} AfterLexical(s: string, mode: Mode)
    requires Lexical(s, mode)
    ensures After(s, mode) == Outside
  {
    if s != "" { AfterLexical(s[1..], Next(mode, s[0])); }
  }

  /** A text that ends outside strings cannot end inside a line separator. */
  lemma SeparatorNotCut(s: string, rest: string, mode: Mode)
    requires s != "" && Lexical(s, mode) && IsLineSeparator(s + rest)
    ensures IsLineSeparator(s)
  {
    assert (s + rest)[0] == s[0];
    assert Lexical(s[1..], InString);
    assert s[1..] != "" && (s + rest)[1] == s[1];
    assert Lexical(s[1..][1..], InString);
    assert s[1..][1..] != "" && (s + rest)[2] == s[2];
  }

  lemma SameSeparator(s: string, rest: string, mode: Mode)
    requires s != "" && Lexical(s, mode)
    ensures IsLineSeparator(s + rest) <==> IsLineSeparator(s)
  {
    if IsLineSeparator(s + rest) {
      SeparatorNotCut(s, rest, mode);
    }
  }

  /** What the scan writes for one byte that does not start a line separator it escapes. */
  function Written(c: char, mode: Mode, escape: bool): string {
    if escape && IsHtml(c) then Unicode(HtmlCode(c)) else if mode == Outside && IsSpace(c) then "" else [c]
  }

  lemma ScanByte(s: string, mode: Mode, escape: bool)
    requires s != "" && (escape ==> IsHtml(s[0]) || !IsLineSeparator(s))
    ensures Scan(s, mode, escape) == Written(s[0], mode, escape) + Scan(s[1..], Next(mode, s[0]), escape)
  {
  }

  lemma ScanSeparator(s: string, mode: Mode)
    requires IsLineSeparator(s)
    ensures Scan(s, mode, true) == Unicode(SeparatorCode(s[2])) + Scan(s[3..], Resume(mode), true)
  {
  }

  lemma ScanConcatSeparator(s: string, rest: string, mode: Mode)
    requires IsLineSeparator(s) && mode != Outside
    requires Scan(s[3..] + rest, InString, true) == Scan(s[3..], InString, true) + Scan(rest, Outside, true)
    ensures Scan(s + rest, mode, true) == Scan(s, mode, true) + Scan(rest, Outside, true)
  {
    hide Scan, Unicode, SeparatorCode;
    var all := s + rest;
    assert all[0] == s[0] && all[1] == s[1] && all[2] == s[2] && all[3..] == s[3..] + rest;
    ScanSeparator(s, mode);
    ScanSeparator(all, mode);
  }

  lemma ScanConcatByte(s: string, rest: string, mode: Mode, escape: bool)
    requires s != "" && IsLineSeparator(s + rest) == IsLineSeparator(s)
    requires escape ==> IsHtml(s[0]) || !IsLineSeparator(s)
    requires Scan(s[1..] + rest, Next(mode, s[0]), escape) == Scan(s[1..], Next(mode, s[0]), escape) + Scan(rest, Outside, escape)
    ensures Scan(s + rest, mode, escape) == Scan(s, mode, escape) + Scan(rest, Outside, escape)
  {
    hide Scan, Written, IsLineSeparator, IsHtml;
    var all := s + rest;
    assert all[0] == s[0] && all[1..] == s[1..] + rest;
    ScanByte(s, mode, escape);
    ScanByte(all, mode, escape);
  }

  /** Scanning a complete text followed by more is scanning the two in turn. */
  lemma {:induction false} ScanConcat(s: string, rest: string, mode: Mode, escape: bool)
    requires Lexical(s, mode)
    ensures Scan(s + rest, mode, escape) == Scan(s, mode, escape) + Scan(rest, Outside, escape)
    decreases |s|
  {
    if s == "" {
      assert s + rest == rest;
    } else {
      hide Scan;
      SameSeparator(s, rest, mode);
      if escape && !IsHtml(s[0]) && IsLineSeparator(s) {
        SeparatorIsInside(s, mode);
        ScanConcat(s[3..], rest, InString, escape);
        ScanConcatSeparator(s, rest, mode);
      } else {
        ScanConcat(s[1..], rest, Next(mode, s[0]), escape);
        ScanConcatByte(s, rest, mode, escape);
      }
    }
  }

  lemma {:induction false} LexicalConcat(s: string, rest: string, mode: Mode)
    requires Lexical(s, mode) && Lexical(rest, Outside)
    ensures Lexical(s + rest, mode)
  {
    if s == "" {
      assert s + rest == rest;
    } else {
      assert (s + rest)[1..] == s[1..] + rest;
      LexicalConcat(s[1..], rest, Next(mode, s[0]));
    }
  }

  /** A scan's output has the same lexical form, and compacting never lengthens it. */
  lemma {:induction false} ScanLexical(s: string, mode: Mode, escape: bool)
    requires Lexical(s, mode)
    ensures Lexical(Scan(s, mode, escape), mode)
    ensures !escape ==> |Scan(s, mode, escape)| <= |s|
    decreases |s|
  {
    if s == "" {
    } else if escape && IsHtml(s[0]) {
      ScanLexical(s[1..], Resume(mode), escape);
      UnicodeLexical(HtmlCode(s[0]), Scan(s[1..], Resume(mode), escape), mode);
    } else if escape && IsLineSeparator(s) {
      SeparatorIsInside(s, mode);
      ScanLexical(s[3..], InString, escape);
      UnicodeLexical(SeparatorCode(s[2]), Scan(s[3..], InString, escape), mode);
    } else if mode == Outside && IsSpace(s[0]) {
      ScanLexical(s[1..], Outside, escape);
    } else {
      ScanLexical(s[1..], Next(mode, s[0]), escape);
      assert ([s[0]] + Scan(s[1..], Next(mode, s[0]), escape))[1..] == Scan(s[1..], Next(mode, s[0]), escape);
    }
  }

  lemma {:induction false} InertLexical(s: string, rest: string, mode: Mode)
    requires Inert(s) && mode != Escaped && Lexical(rest, mode)
    ensures Lexical(s + rest, mode)
  {
    if s == "" {
      assert s + rest == rest;
    } else {
      assert (s + rest)[1..] == s[1..] + rest;
      InertLexical(s[1..], rest, mode);
    }
  }

  lemma UnicodeLexical(code: string, rest: string, mode: Mode)
    requires Inert(code) && Lexical(rest, Resume(mode))
    ensures Lexical(Unicode(code) + rest, mode)
  {
    InertLexical(code, rest, Resume(mode));
    var tail := ['u'] + (code + rest);
    assert tail[1..] == code + rest;
    assert Unicode(code) + rest == ['\\'] + tail && (['\\'] + tail)[1..] == tail;
  }

  // ----- the ends of a text -----

  /** What `bytes.TrimSpace` removes, as far as ASCII goes. */
  predicate IsTrimmed(c: char) {
    IsSpace(c) || c == '\U{0B}' || c == '\U{0C}'
  }

  /** The first byte left after trimming. */
  function Leading(s: string): Option<char> {
    if s == "" then None else if IsTrimmed(s[0]) then Leading(s[1..]) else Some(s[0])
  }

  /** The last byte left after trimming. */
  function Trailing(s: string): Option<char> {
    if s == "" then None
    else if Trailing(s[1..]).Some? then Trailing(s[1..])
    else if IsTrimmed(s[0]) then None
    else Some(s[0])
  }

  /** Trimmed, the text starts with `{` and ends with `}`. */
  predicate IsObjectText(s: string) {
    Leading(s) == Some('{') && Trailing(s) == Some('}')
  }

  lemma {:induction false} TrailingConcat(s: string, rest: string)
    requires Trailing(rest).Some?
    ensures Trailing(s + rest) == Trailing(rest)
  {
    if s == "" {
      assert s + rest == rest;
    } else {
      assert (s + rest)[1..] == s[1..] + rest;
      TrailingConcat(s[1..], rest);
    }
  }

  lemma {:induction false} BlankTail(s: string, mode: Mode, escape: bool)
    requires Lexical(s, mode) && Trailing(s) == None
    ensures mode == Outside && Scan(s, mode, escape) == ""
  {
    if s != "" {
      BlankTail(s[1..], Next(mode, s[0]), escape);
    }
  }

  lemma {:induction false} LeadingSurvives(s: string, escape: bool)
    requires Lexical(s, Outside) && Leading(s) == Some('{')
    ensures Leading(Scan(s, Outside, escape)) == Some('{')
  {
    if IsTrimmed(s[0]) { LeadingSurvives(s[1..], escape); }
  }

  lemma {:induction false} TrailingSurvives(s: string, mode: Mode, escape: bool)
    requires Lexical(s, mode) && Trailing(s) == Some('}')
    ensures Trailing(Scan(s, mode, escape)) == Some('}')
    decreases |s|
  {
    var mode' := Next(mode, s[0]);
    if Trailing(s[1..]) == None {
      BlankTail(s[1..], mode', escape);
      assert Scan(s, mode, escape) == ['}'];
    } else if escape && IsLineSeparator(s) {
      SeparatorIsInside(s, mode);
      assert s[1..][1..] == s[2..] && s[2..][1..] == s[3..];
      assert Trailing(s[2..]) == Some('}') && Trailing(s[3..]) == Some('}');
      TrailingSurvives(s[3..], InString, escape);
      TrailingConcat(Unicode(SeparatorCode(s[2])), Scan(s[3..], InString, escape));
    } else {
      TrailingSurvives(s[1..], mode', escape);
      if escape && IsHtml(s[0]) {
        TrailingConcat(Unicode(HtmlCode(s[0])), Scan(s[1..], mode', escape));
      } else {
        TrailingConcat([s[0]], Scan(s[1..], mode', escape));
      }
    }
  }

  lemma ObjectSurvives(s: string, escape: bool)
    requires Lexical(s, Outside) && IsObjectText(s)
    ensures IsObjectText(Scan(s, Outside, escape))
  {
    LeadingSurvives(s, escape);
    TrailingSurvives(s, Outside, escape);
  }
}
