/** The encoder's scanner drops only whitespace between tokens, and its escapes stand for what they replaced. */
module JsonMeaning {
  import opened Text
  import opened JsonText

  // ----- whitespace -----

  /** No whitespace outside strings. */
  predicate Tight(s: string, mode: Mode) {
    s == "" || (!(mode == Outside && IsSpace(s[0])) && Tight(s[1..], Next(mode, s[0])))
  }

  lemma {:induction false} CompactIsTight(s: string, mode: Mode)
    ensures Tight(Scan(s, mode, false), mode)
  {
    if s != "" {
      CompactIsTight(s[1..], Next(mode, s[0]));
      var rest := Scan(s[1..], Next(mode, s[0]), false);
      assert ([s[0]] + rest)[1..] == rest;
    }
  }

  lemma {:induction false} TightIsCompact(s: string, mode: Mode)
    requires Tight(s, mode)
    ensures Scan(s, mode, false) == s
  {
    if s != "" {
      TightIsCompact(s[1..], Next(mode, s[0]));
      assert s == [s[0]] + s[1..];
    }
  }

  /** Compacting does not see whitespace added outside strings. */
  lemma {:induction false} WhitespaceIgnored(before: string, space: char, after: string, mode: Mode)
    requires IsSpace(space) && After(before, mode) == Outside
    ensures Scan(before + ([space] + after), mode, false) == Scan(before + after, mode, false)
  {
    if before == "" {
      assert before + ([space] + after) == [space] + after && before + after == after;
    } else {
      assert (before + ([space] + after))[1..] == before[1..] + ([space] + after);
      assert (before + after)[1..] == before[1..] + after;
      WhitespaceIgnored(before[1..], space, after, Next(mode, before[0]));
    }
  }

  // ----- escapes -----

  /** The bytes an escape with these digits stands for, if it is one of the encoder's. */
  function Decoded(code: string): Option<string> {
    if code == "003c" then Some("<")
    else if code == "003e" then Some(">")
    else if code == "0026" then Some("&")
    else if code == "2028" then Some(['\U{E2}', '\U{80}', '\U{A8}'])
    else if code == "2029" then Some(['\U{E2}', '\U{80}', '\U{A9}'])
    else None
  }

  /** The bytes that an escape at the start of the text stands for. */
  function Coded(s: string): Option<string> {
    if |s| < 6 || s[0] != '\\' || s[1] != 'u' then None else Decoded(s[2..6])
  }

  /** What a reader makes of the text: no whitespace between tokens, and those escapes decoded. */
  function Meaning(s: string, mode: Mode): string
    decreases |s|
  {
    if s == "" then ""
    else if mode == InString && Coded(s).Some? then Coded(s).value + Meaning(s[6..], InString)
    else if mode == Outside && IsSpace(s[0]) then Meaning(s[1..], Outside)
    else [s[0]] + Meaning(s[1..], Next(mode, s[0]))
  }

  lemma HtmlDecoded(c: char)
    requires IsHtml(c)
    ensures Decoded(HtmlCode(c)) == Some([c])
  {
  }

  lemma SeparatorDecoded(s: string)
    requires IsLineSeparator(s)
    ensures Decoded(SeparatorCode(s[2])) == Some([s[0]] + ([s[1]] + [s[2]]))
  {
    assert [s[0]] + ([s[1]] + [s[2]]) == [s[0], s[1], s[2]];
  }

  lemma UnicodeMeaning(code: string, rest: string)
    requires Decoded(code).Some?
    ensures Meaning(Unicode(code) + rest, InString) == Decoded(code).value + Meaning(rest, InString)
  {
    var s := Unicode(code) + rest;
    assert |code| == 4 && s[2..6] == code && s[6..] == rest;
    hide Decoded;
  }

  /** Inert text found in a scan's output inside a string was there before. */
  lemma {:induction false} InertPrefixKept(s: string, code: string, mode: Mode, escape: bool)
    requires mode != Outside && Inert(code) && code <= Scan(s, mode, escape)
    ensures code <= s
  {
    if code != "" {
      var out := Scan(s, mode, escape);
      assert out[0] == code[0] && s[0] == code[0];
      assert out[1..] == Scan(s[1..], InString, escape);
      assert code[1..] <= out[1..];
      InertPrefixKept(s[1..], code[1..], InString, escape);
      assert code == [code[0]] + code[1..] && s == [s[0]] + s[1..];
    }
  }

  lemma {:induction false} LexicalAfterInert(code: string, rest: string, mode: Mode)
    requires Inert(code) && mode != Escaped && Lexical(code + rest, mode)
    ensures Lexical(rest, mode)
  {
    if code == "" {
      assert code + rest == rest;
    } else {
      assert (code + rest)[1..] == code[1..] + rest;
      LexicalAfterInert(code[1..], rest, mode);
    }
  }

  /** A text that starts with an escape: the scan copies it and goes on behind it. */
  lemma CodedParts(s: string) returns (code: string, rest: string)
    requires Coded(s).Some? && Lexical(s, InString)
    ensures Inert(code) && s == Unicode(code) + rest && Decoded(code).Some?
    ensures |rest| < |s| && Lexical(rest, InString)
  {
    code, rest := s[2..6], s[6..];
    assert Inert(code);
    hide Decoded;
    assert s == Unicode(code) + rest;
    assert s[1..][1..] == code + rest;
    assert Lexical(s[1..], Escaped) && Lexical(s[1..][1..], InString);
    LexicalAfterInert(code, rest, InString);
  }

  /** Scanning what follows a backslash brings no new escape about. */
  lemma NothingNewCoded(s: string, escape: bool)
    requires s != "" && s[0] == '\\'
    ensures Coded([s[0]] + Scan(s[1..], Escaped, escape)).Some? ==> Coded(s).Some?
  {
    var rest := Scan(s[1..], Escaped, escape);
    var out := [s[0]] + rest;
    if Coded(out).Some? {
      var digits := out[2..6];
      assert Inert(digits);
      hide Decoded;
      assert rest[0] == out[1] && rest[1..5] == digits;
      assert rest[..5] == ['u'] + digits;
      InertPrefixKept(s[1..], ['u'] + digits, Escaped, escape);
      assert s[1] == 'u' && s[2..6] == digits;
    }
  }

  lemma OrdinaryMeaning(s: string, mode: Mode, escape: bool)
    requires s != "" && !(mode == Outside && IsSpace(s[0]))
    requires mode == InString ==> Coded(s) == None
    ensures var rest := Scan(s[1..], Next(mode, s[0]), escape);
            Meaning([s[0]] + rest, mode) == [s[0]] + Meaning(rest, Next(mode, s[0]))
  {
    var rest := Scan(s[1..], Next(mode, s[0]), escape);
    assert ([s[0]] + rest)[1..] == rest;
    if mode == InString && s[0] == '\\' { NothingNewCoded(s, escape); }
  }

  lemma SeparatorMeaning(s: string)
    requires IsLineSeparator(s)
    ensures Meaning(s, InString) == [s[0]] + ([s[1]] + [s[2]]) + Meaning(s[3..], InString)
  {
    assert s[1..][1..] == s[2..] && s[2..][1..] == s[3..];
    assert Meaning(s[1..], InString) == [s[1]] + Meaning(s[2..], InString);
    assert Meaning(s[2..], InString) == [s[2]] + Meaning(s[3..], InString);
  }

  /** Compacted or escaped, a text means what it meant. */
  lemma {:induction false} ScanKeepsMeaning(s: string, mode: Mode, escape: bool)
    requires Lexical(s, mode)
    ensures Meaning(Scan(s, mode, escape), mode) == Meaning(s, mode)
    decreases |s|
  {
    hide Decoded, HtmlCode, SeparatorCode, Unicode;
    if s == "" {
    } else if escape && IsHtml(s[0]) {
      ScanKeepsMeaning(s[1..], InString, escape);
      HtmlDecoded(s[0]);
      UnicodeMeaning(HtmlCode(s[0]), Scan(s[1..], InString, escape));
    } else if escape && IsLineSeparator(s) {
      SeparatorIsInside(s, mode);
      ScanKeepsMeaning(s[3..], InString, escape);
      SeparatorMeaning(s);
      SeparatorDecoded(s);
      UnicodeMeaning(SeparatorCode(s[2]), Scan(s[3..], InString, escape));
    } else if mode == InString && Coded(s).Some? {
      var code, rest := CodedParts(s);
      ScanUnicode(code, rest, InString, escape);
      ScanKeepsMeaning(rest, InString, escape);
      UnicodeMeaning(code, Scan(rest, InString, escape));
      UnicodeMeaning(code, rest);
    } else if mode == Outside && IsSpace(s[0]) {
      ScanKeepsMeaning(s[1..], Outside, escape);
    } else {
      ScanKeepsMeaning(s[1..], Next(mode, s[0]), escape);
      OrdinaryMeaning(s, mode, escape);
    }
  }

  /** The encoder's form holds no whitespace between tokens and nothing left to escape, and means the same. */
  lemma EscapeIsSafe(s: string)
    requires Lexical(s, Outside)
    ensures Tight(Escape(s), Outside) && !HasEscapable(Escape(s))
    ensures Meaning(Escape(s), Outside) == Meaning(s, Outside)
  {
    ScanTwice(s, Outside, true, true);
    ScanTwice(s, Outside, true, false);
    EscapeIsCompact(Escape(s), Outside);
    CompactIsTight(Escape(s), Outside);
    ScanKeepsMeaning(s, Outside, true);
  }
}
