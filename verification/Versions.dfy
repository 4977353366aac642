/** Semantic versions: `ValidateSemanticVersion` (`contract/version.go`) against the grammar of Semantic Versioning 2.0.0. */
module Versions {
  import opened Text
  import opened Regex
  import opened Patterns

  const MAXIMUM_LENGTH := 128

  // ----- string helpers of Go's `strings` -----

  /** The text before the first `c`, and the text after it when there is one. */
  function Cut(s: string, c: char): (string, Option<string>) {
    if s == "" then ("", None)
    else if s[0] == c then ("", Some(s[1..]))
    else
      var (head, tail) := Cut(s[1..], c);
      ([s[0]] + head, tail)
  }

  /** `strings.IndexByte`. */
  function IndexByte(s: string, c: char): (index: int)
    ensures -1 <= index < |s|
  {
    if s == "" then -1
    else if s[0] == c then 0
    else if IndexByte(s[1..], c) < 0 then -1
    else IndexByte(s[1..], c) + 1
  }

  lemma {:induction false} CutWhole(s: string, c: char)
    ensures var (head, tail) := Cut(s, c);
            && c !in head && |head| <= |s|
            && (if tail == None then s == head && IndexByte(s, c) == -1
                else s == head + ([c] + tail.value) && |tail.value| < |s|
                     && IndexByte(s, c) == |head| && s[|head| + 1..] == tail.value)
  {
    if s != "" && s[0] != c {
      CutWhole(s[1..], c);
      assert s == [s[0]] + s[1..];
    }
  }

  lemma {:induction false} CutFirst(a: string, c: char, rest: string)
    requires c !in a
    ensures Cut(a + ([c] + rest), c) == (a, Some(rest)) && Cut(a, c) == (a, None)
  {
    var s := a + ([c] + rest);
    if a == "" {
      assert s == [c] + rest && s[1..] == rest;
    } else {
      assert s[0] == a[0] && s[1..] == a[1..] + ([c] + rest);
      CutFirst(a[1..], c, rest);
      assert a == [a[0]] + a[1..];
    }
  }

  /** `strings.Split`. */
  function Split(s: string, c: char): (parts: seq<string>)
    ensures parts != []
    decreases |s|
  {
    CutWhole(s, c);
    var (head, tail) := Cut(s, c);
    if tail == None then [head] else [head] + Split(tail.value, c)
  }

  /** Each part behind a separator. */
  function Behind(parts: seq<string>, c: char): string {
    if parts == [] then "" else [c] + (parts[0] + Behind(parts[1..], c))
  }

  function JoinParts(parts: seq<string>, c: char): string
    requires parts != []
  {
    parts[0] + Behind(parts[1..], c)
  }

  lemma {:induction false} JoinSplit(s: string, c: char)
    ensures JoinParts(Split(s, c), c) == s
    decreases |s|
  {
    CutWhole(s, c);
    var (head, tail) := Cut(s, c);
    if tail.Some? {
      JoinSplit(tail.value, c);
      assert Split(s, c)[1..] == Split(tail.value, c);
    }
  }

  lemma {:induction false} SplitJoin(parts: seq<string>, c: char)
    requires parts != [] && forall part :: part in parts ==> c !in part
    ensures Split(JoinParts(parts, c), c) == parts
  {
    if |parts| == 1 {
      CutFirst(parts[0], c, "");
      assert JoinParts(parts, c) == parts[0] && parts == [parts[0]];
    } else {
      CutFirst(parts[0], c, JoinParts(parts[1..], c));
      SplitJoin(parts[1..], c);
    }
  }

  // ----- the validator -----

  /** `(0|[1-9][0-9]*)` */
  function NumberPattern(): Regex {
    Alt(One('0'), Seq(Class([('1', '9')]), Star(Class([DIGIT]))))
  }

  const WORD_CHARS: seq<(char, char)> := [('0', '9'), ('A', 'Z'), ('a', 'z'), ('-', '-')]

  /** `[0-9A-Za-z-]+(?:\.[0-9A-Za-z-]+)*` */
  function IdentifiersPattern(): Regex {
    Seq(Plus(Class(WORD_CHARS)), Star(Seq(One('.'), Plus(Class(WORD_CHARS)))))
  }

  /** `semanticVersionPattern` */
  function VersionPattern(): Regex {
    Seq(NumberPattern(), Seq(One('.'), Seq(NumberPattern(), Seq(One('.'), Seq(NumberPattern(),
      Seq(Opt(Seq(One('-'), IdentifiersPattern())), Opt(Seq(One('+'), IdentifiersPattern()))))))))
  }

  /** What the scan after the pattern looks at: the identifiers between the first dash and the first plus. */
  function Scanned(s: string): seq<string> {
    var coreAndPreRelease := Cut(s, '+').0;
    var preReleaseStart := IndexByte(coreAndPreRelease, '-');
    if preReleaseStart < 0 then [] else Split(coreAndPreRelease[preReleaseStart + 1..], '.')
  }

  predicate HasLeadingZero(identifier: string) {
    |identifier| > 1 && identifier[0] == '0' && AllDigits(identifier)
  }

  predicate ScanPasses(s: string) {
    forall identifier :: identifier in Scanned(s) ==> !HasLeadingZero(identifier)
  }

  /** `ValidateSemanticVersion`. */
  predicate Validates(s: string) {
    |s| <= MAXIMUM_LENGTH && Matches(VersionPattern(), s) && ScanPasses(s)
  }

  // ----- the grammar -----

  /** A version by its parts; an absent pre-release or build is an empty list. */
  datatype Version = Version(major: string, minor: string, patch: string, preRelease: seq<string>, build: seq<string>)

  /** A number without leading zeros (item 2). */
  predicate IsNumeric(s: string) {
    s != "" && AllDigits(s) && (s[0] == '0' ==> |s| == 1)
  }

  predicate IsWord(c: char) {
    '0' <= c <= '9' || 'A' <= c <= 'Z' || 'a' <= c <= 'z' || c == '-'
  }

  /** Non-empty, of alphanumerics and hyphens (items 9 and 10). */
  predicate IsIdentifier(s: string) {
    s != "" && forall i :: 0 <= i < |s| ==> IsWord(s[i])
  }

  /** A pre-release identifier: numeric ones have no leading zeros (item 9). */
  predicate IsPreRelease(s: string) {
    IsIdentifier(s) && (AllDigits(s) ==> IsNumeric(s))
  }

  /** What the pattern alone asks of the parts. */
  predicate HasShape(v: Version) {
    && IsNumeric(v.major) && IsNumeric(v.minor) && IsNumeric(v.patch)
    && (forall part :: part in v.preRelease ==> IsIdentifier(part))
    && (forall part :: part in v.build ==> IsIdentifier(part))
  }

  predicate WellFormed(v: Version) {
    HasShape(v) && forall part :: part in v.preRelease ==> IsPreRelease(part)
  }

  function Core(v: Version): string {
    v.major + (['.'] + (v.minor + (['.'] + v.patch)))
  }

  function Suffix(mark: char, parts: seq<string>): string {
    if parts == [] then "" else [mark] + JoinParts(parts, '.')
  }

  /** The version's text. */
  function Print(v: Version): string {
    (Core(v) + Suffix('-', v.preRelease)) + Suffix('+', v.build)
  }

  // ----- the text has one reading -----

  function SplitSuffix(text: Option<string>): seq<string> {
    if text == None then [] else Split(text.value, '.')
  }

  /** Build metadata from the first plus, pre-release from the first dash before it, and three numbers. */
  function Read(s: string): Option<Version> {
    var (front, build) := Cut(s, '+');
    var (core, preRelease) := Cut(front, '-');
    var numbers := Split(core, '.');
    if |numbers| != 3 then None
    else Some(Version(numbers[0], numbers[1], numbers[2], SplitSuffix(preRelease), SplitSuffix(build)))
  }

  lemma {:induction false} BehindAvoids(parts: seq<string>, c: char, d: char)
    requires d != c && forall part :: part in parts ==> d !in part
    ensures d !in Behind(parts, c)
  {
    if parts != [] { BehindAvoids(parts[1..], c, d); }
  }

  lemma CoreAvoids(v: Version, c: char)
    requires HasShape(v) && c != '.' && !IsDigit(c)
    ensures c !in Core(v)
  {
    forall part | part in [v.major, v.minor, v.patch]
      ensures c !in part
    {
    }
  }

  lemma SuffixRead(parts: seq<string>)
    requires forall part :: part in parts ==> IsIdentifier(part)
    ensures SplitSuffix(if parts == [] then None else Some(JoinParts(parts, '.'))) == parts
    ensures '+' !in Suffix('-', parts)
  {
    forall part | part in parts
      ensures '.' !in part && '+' !in part
    {
    }
    if parts != [] {
      SplitJoin(parts, '.');
      BehindAvoids(parts[1..], '.', '+');
    }
  }

  lemma CoreRead(v: Version)
    requires HasShape(v)
    ensures Split(Core(v), '.') == [v.major, v.minor, v.patch]
  {
    var numbers := [v.major, v.minor, v.patch];
    assert Behind(numbers[1..][1..], '.') == ['.'] + v.patch by {
      assert numbers[1..][1..] == [v.patch];
      assert v.patch + Behind([v.patch][1..], '.') == v.patch;
    }
    assert JoinParts(numbers, '.') == Core(v);
    SplitJoin(numbers, '.');
  }

  lemma CutSuffix(front: string, mark: char, parts: seq<string>)
    requires mark !in front
    ensures Cut(front + Suffix(mark, parts), mark) == (front, if parts == [] then None else Some(JoinParts(parts, '.')))
  {
    if parts == [] {
      assert front + Suffix(mark, parts) == front;
      CutFirst(front, mark, "");
    } else {
      CutFirst(front, mark, JoinParts(parts, '.'));
    }
  }

  /** Reading a printed version gives its parts back, wherever dashes occur in them: no text has two readings. */
  lemma ReadPrint(v: Version)
    requires HasShape(v)
    ensures Read(Print(v)) == Some(v)
  {
    CoreAvoids(v, '-');
    CoreAvoids(v, '+');
    SuffixRead(v.preRelease);
    SuffixRead(v.build);
    CutSuffix(Core(v) + Suffix('-', v.preRelease), '+', v.build);
    CutSuffix(Core(v), '-', v.preRelease);
    CoreRead(v);
  }

  lemma UniqueReading(v: Version, w: Version)
    requires WellFormed(v) && WellFormed(w) && Print(v) == Print(w)
    ensures v == w
  {
    ReadPrint(v);
    ReadPrint(w);
  }

  // ----- the pattern is the shape -----

  lemma WordClass(c: char)
    ensures InClass(WORD_CHARS, c) <==> IsWord(c)
    ensures InClass([DIGIT], c) <==> IsDigit(c)
    ensures InClass([('1', '9')], c) <==> '1' <= c <= '9'
  {
    assert WORD_CHARS[0] == ('0', '9') && WORD_CHARS[1] == ('A', 'Z') && WORD_CHARS[2] == ('a', 'z') && WORD_CHARS[3] == ('-', '-');
    assert [DIGIT][0] == ('0', '9') && [('1', '9')][0] == ('1', '9');
  }

  lemma IdentifierMatches(s: string)
    ensures Matches(Plus(Class(WORD_CHARS)), s) <==> IsIdentifier(s)
  {
    forall c ensures InClass(WORD_CHARS, c) <==> IsWord(c) { WordClass(c); }
    if Matches(Plus(Class(WORD_CHARS)), s) {
      var i :| 0 <= i <= |s| && Matches(Class(WORD_CHARS), s[..i]) && Matches(Star(Class(WORD_CHARS)), s[i..]);
      StarOfClass(WORD_CHARS, s[i..]);
      assert i == 1 && s[..1][0] == s[0];
      assert forall j :: 0 <= j < |s[1..]| ==> s[1..][j] == s[j + 1];
    }
    if IsIdentifier(s) {
      StarOfClass(WORD_CHARS, s[1..]);
      assert Matches(Class(WORD_CHARS), [s[0]]);
      SeqAt(Class(WORD_CHARS), Star(Class(WORD_CHARS)), [s[0]], s[1..]);
      assert s == [s[0]] + s[1..];
    }
  }

  lemma OneMatches(c: char, s: string)
    ensures Matches(One(c), s) <==> s == [c]
  {
    assert [(c, c)][0] == (c, c);
    assert InClass([(c, c)], c);
  }

  lemma NumberMatches(s: string)
    ensures Matches(NumberPattern(), s) <==> IsNumeric(s)
  {
    forall c ensures (InClass([DIGIT], c) <==> IsDigit(c)) && (InClass([('1', '9')], c) <==> '1' <= c <= '9') { WordClass(c); }
    var tail := Seq(Class([('1', '9')]), Star(Class([DIGIT])));
    OneMatches('0', s);
    if Matches(tail, s) {
      var i :| 0 <= i <= |s| && Matches(Class([('1', '9')]), s[..i]) && Matches(Star(Class([DIGIT])), s[i..]);
      StarOfClass([DIGIT], s[i..]);
      assert i == 1 && s[..1][0] == s[0];
      assert forall j :: 0 <= j < |s[1..]| ==> s[1..][j] == s[j + 1];
    }
    if IsNumeric(s) && s != "0" {
      StarOfClass([DIGIT], s[1..]);
      assert Matches(Class([('1', '9')]), [s[0]]);
      SeqAt(Class([('1', '9')]), Star(Class([DIGIT])), [s[0]], s[1..]);
      assert s == [s[0]] + s[1..];
    }
  }

  lemma {:induction false} MatchBehind(parts: seq<string>)
    requires forall part :: part in parts ==> IsIdentifier(part)
    ensures Matches(Star(Seq(One('.'), Plus(Class(WORD_CHARS)))), Behind(parts, '.'))
  {
    if parts != [] {
      var body := Seq(One('.'), Plus(Class(WORD_CHARS)));
      var first, rest := ['.'] + parts[0], Behind(parts[1..], '.');
      MatchBehind(parts[1..]);
      IdentifierMatches(parts[0]);
      OneMatches('.', ['.']);
      SeqAt(One('.'), Plus(Class(WORD_CHARS)), ['.'], parts[0]);
      var s := Behind(parts, '.');
      assert s == first + rest && s[..|first|] == first && s[|first|..] == rest;
    }
  }

  lemma MarkThen(mark: char, rest: Regex, s: string) returns (tail: string)
    requires Matches(Seq(One(mark), rest), s)
    ensures s == [mark] + tail && Matches(rest, tail)
  {
    var j :| 0 <= j <= |s| && Matches(One(mark), s[..j]) && Matches(rest, s[j..]);
    OneMatches(mark, s[..j]);
    tail := s[j..];
    assert s == s[..j] + tail;
  }

  lemma {:induction false} BehindOfMatch(s: string) returns (parts: seq<string>)
    requires Matches(Star(Seq(One('.'), Plus(Class(WORD_CHARS)))), s)
    ensures s == Behind(parts, '.') && forall part :: part in parts ==> IsIdentifier(part)
    decreases |s|
  {
    if s == "" {
      parts := [];
    } else {
      var body := Seq(One('.'), Plus(Class(WORD_CHARS)));
      var i :| 0 < i <= |s| && Matches(body, s[..i]) && Matches(Star(body), s[i..]);
      var part := MarkThen('.', Plus(Class(WORD_CHARS)), s[..i]);
      IdentifierMatches(part);
      var rest := BehindOfMatch(s[i..]);
      parts := [part] + rest;
      assert s == s[..i] + s[i..];
    }
  }

  /** `(?:-identifiers)?` and `(?:+identifiers)?` */
  function SuffixPattern(mark: char): Regex {
    Opt(Seq(One(mark), IdentifiersPattern()))
  }

  lemma MatchSuffix(mark: char, parts: seq<string>)
    requires forall part :: part in parts ==> IsIdentifier(part)
    ensures Matches(SuffixPattern(mark), Suffix(mark, parts))
  {
    if parts != [] {
      IdentifierMatches(parts[0]);
      MatchBehind(parts[1..]);
      SeqAt(Plus(Class(WORD_CHARS)), Star(Seq(One('.'), Plus(Class(WORD_CHARS)))), parts[0], Behind(parts[1..], '.'));
      OneMatches(mark, [mark]);
      SeqAt(One(mark), IdentifiersPattern(), [mark], JoinParts(parts, '.'));
    }
  }

  lemma SuffixOfMatch(mark: char, s: string) returns (parts: seq<string>)
    requires Matches(SuffixPattern(mark), s)
    ensures s == Suffix(mark, parts) && forall part :: part in parts ==> IsIdentifier(part)
  {
    if s == "" {
      parts := [];
    } else {
      var t := MarkThen(mark, IdentifiersPattern(), s);
      var j :| 0 <= j <= |t| && Matches(Plus(Class(WORD_CHARS)), t[..j]) && Matches(Star(Seq(One('.'), Plus(Class(WORD_CHARS)))), t[j..]);
      IdentifierMatches(t[..j]);
      var rest := BehindOfMatch(t[j..]);
      parts := [t[..j]] + rest;
      assert t == t[..j] + t[j..];
    }
  }

  // The rest of the pattern, from the right.

  function FromPatch(): Regex {
    Seq(NumberPattern(), Seq(SuffixPattern('-'), SuffixPattern('+')))
  }

  function FromMinor(): Regex {
    Seq(NumberPattern(), Seq(One('.'), FromPatch()))
  }

  lemma MatchNumberThenDot(rest: Regex, number: string, tail: string)
    requires IsNumeric(number) && Matches(rest, tail)
    ensures Matches(Seq(NumberPattern(), Seq(One('.'), rest)), number + (['.'] + tail))
  {
    NumberMatches(number);
    OneMatches('.', ['.']);
    SeqAt(One('.'), rest, ['.'], tail);
    SeqAt(NumberPattern(), Seq(One('.'), rest), number, ['.'] + tail);
  }

  lemma MatchPatch(patch: string, preRelease: seq<string>, build: seq<string>)
    requires IsNumeric(patch) && forall part :: part in preRelease || part in build ==> IsIdentifier(part)
    ensures Matches(FromPatch(), patch + (Suffix('-', preRelease) + Suffix('+', build)))
  {
    NumberMatches(patch);
    MatchSuffix('-', preRelease);
    MatchSuffix('+', build);
    SeqAt(SuffixPattern('-'), SuffixPattern('+'), Suffix('-', preRelease), Suffix('+', build));
    SeqAt(NumberPattern(), Seq(SuffixPattern('-'), SuffixPattern('+')), patch, Suffix('-', preRelease) + Suffix('+', build));
  }

  lemma PrintFromMajor(v: Version)
    ensures Print(v)
         == v.major + (['.'] + (v.minor + (['.'] + (v.patch + (Suffix('-', v.preRelease) + Suffix('+', v.build))))))
  {
    Regroup(v.major, v.minor, v.patch, Suffix('-', v.preRelease), Suffix('+', v.build));
  }

  lemma Regroup(major: string, minor: string, patch: string, preRelease: string, build: string)
    ensures (major + (['.'] + (minor + (['.'] + patch))) + preRelease) + build
         == major + (['.'] + (minor + (['.'] + (patch + (preRelease + build)))))
  {
  }

  /** A text of the pattern's shape matches it. */
  lemma MatchPrint(v: Version)
    requires HasShape(v)
    ensures Matches(VersionPattern(), Print(v))
  {
    var fromPatch := v.patch + (Suffix('-', v.preRelease) + Suffix('+', v.build));
    MatchPatch(v.patch, v.preRelease, v.build);
    MatchNumberThenDot(FromPatch(), v.minor, fromPatch);
    MatchNumberThenDot(FromMinor(), v.major, v.minor + (['.'] + fromPatch));
    PrintFromMajor(v);
  }

  lemma NumberThenDot(rest: Regex, s: string) returns (number: string, tail: string)
    requires Matches(Seq(NumberPattern(), Seq(One('.'), rest)), s)
    ensures s == number + (['.'] + tail) && IsNumeric(number) && Matches(rest, tail)
  {
    var i :| 0 <= i <= |s| && Matches(NumberPattern(), s[..i]) && Matches(Seq(One('.'), rest), s[i..]);
    number := s[..i];
    NumberMatches(number);
    tail := MarkThen('.', rest, s[i..]);
    assert s == s[..i] + s[i..];
  }

  lemma PatchOfMatch(s: string) returns (patch: string, preRelease: seq<string>, build: seq<string>)
    requires Matches(FromPatch(), s)
    ensures s == patch + (Suffix('-', preRelease) + Suffix('+', build)) && IsNumeric(patch)
    ensures forall part :: part in preRelease || part in build ==> IsIdentifier(part)
  {
    var i :| 0 <= i <= |s| && Matches(NumberPattern(), s[..i]) && Matches(Seq(SuffixPattern('-'), SuffixPattern('+')), s[i..]);
    var t := s[i..];
    var j :| 0 <= j <= |t| && Matches(SuffixPattern('-'), t[..j]) && Matches(SuffixPattern('+'), t[j..]);
    patch := s[..i];
    NumberMatches(patch);
    preRelease := SuffixOfMatch('-', t[..j]);
    build := SuffixOfMatch('+', t[j..]);
    assert s == s[..i] + t && t == t[..j] + t[j..];
  }

  /** A text that matches has the pattern's shape. */
  lemma ShapeOfMatch(s: string) returns (v: Version)
    requires Matches(VersionPattern(), s)
    ensures HasShape(v) && Print(v) == s
  {
    var major, fromMinor := NumberThenDot(FromMinor(), s);
    var minor, fromPatch := NumberThenDot(FromPatch(), fromMinor);
    var patch, preRelease, build := PatchOfMatch(fromPatch);
    v := Version(major, minor, patch, preRelease, build);
    PrintFromMajor(v);
  }

  // ----- the validator is the grammar -----

  /** On a text of the right shape, the scan looks at exactly the pre-release identifiers. */
  lemma ScannedIsPreRelease(v: Version)
    requires HasShape(v)
    ensures Scanned(Print(v)) == v.preRelease
  {
    var front := Core(v) + Suffix('-', v.preRelease);
    assert Cut(Print(v), '+').0 == front by {
      CoreAvoids(v, '+');
      SuffixRead(v.preRelease);
      CutSuffix(front, '+', v.build);
    }
    CoreAvoids(v, '-');
    CutSuffix(Core(v), '-', v.preRelease);
    CutWhole(front, '-');
    SuffixRead(v.preRelease);
  }

  lemma ScanIsPreRelease(v: Version)
    requires HasShape(v)
    ensures ScanPasses(Print(v)) <==> WellFormed(v)
  {
    ScannedIsPreRelease(v);
    forall part | part in v.preRelease
      ensures IsPreRelease(part) <==> !HasLeadingZero(part)
    {
    }
  }

  /**
   `ValidateSemanticVersion` accepts exactly the texts of at most 128 bytes that the grammar of Semantic
   Versioning 2.0.0 (items 2, 9 and 10) derives.
   */
  lemma ValidatorIsGrammar(s: string)
    ensures Validates(s) <==> |s| <= MAXIMUM_LENGTH && exists v :: WellFormed(v) && Print(v) == s
  {
    if Validates(s) {
      var v := ShapeOfMatch(s);
      ScanIsPreRelease(v);
    }
    if v :| WellFormed(v) && Print(v) == s {
      MatchPrint(v);
      ScanIsPreRelease(v);
    }
  }
}
