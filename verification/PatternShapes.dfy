/** What the identifier patterns match, position by position. */
module PatternShapes {
  import opened Regex
  import opened Patterns

  // ----- fixed lengths -----

  /** One character class a position. */
  ghost predicate Fits(classes: seq<seq<(char, char)>>, s: string) {
    |s| == |classes| && forall i :: 0 <= i < |s| ==> InClass(classes[i], s[i])
  }

  ghost predicate Spells(r: Regex, classes: seq<seq<(char, char)>>) {
    forall s :: Matches(r, s) <==> Fits(classes, s)
  }

  lemma ClassSpells(ranges: seq<(char, char)>)
    ensures Spells(Class(ranges), [ranges])
  {
  }

  lemma SeqCut(first: Regex, second: Regex, s: string) returns (i: nat)
    requires Matches(Seq(first, second), s)
    ensures i <= |s| && Matches(first, s[..i]) && Matches(second, s[i..])
  {
    i :| 0 <= i <= |s| && Matches(first, s[..i]) && Matches(second, s[i..]);
  }

  lemma FitsBoth(a: seq<seq<(char, char)>>, b: seq<seq<(char, char)>>, x: string, y: string)
    requires Fits(a, x) && Fits(b, y)
    ensures Fits(a + b, x + y)
  {
    hide InClass;
    forall i | 0 <= i < |x + y|
      ensures InClass((a + b)[i], (x + y)[i])
    {
      if i >= |x| { assert InClass(b[i - |x|], y[i - |x|]); }
    }
  }

  lemma FitsSplit(a: seq<seq<(char, char)>>, b: seq<seq<(char, char)>>, s: string)
    requires Fits(a + b, s)
    ensures |a| <= |s| && Fits(a, s[..|a|]) && Fits(b, s[|a|..])
  {
    hide InClass;
    forall i | 0 <= i < |b|
      ensures InClass(b[i], s[|a|..][i])
    {
      assert (a + b)[|a| + i] == b[i];
    }
    forall i | 0 <= i < |a|
      ensures InClass(a[i], s[..|a|][i])
    {
      assert (a + b)[i] == a[i];
    }
  }

  lemma SpellsAt(r: Regex, classes: seq<seq<(char, char)>>, s: string)
    requires Spells(r, classes)
    ensures Matches(r, s) <==> Fits(classes, s)
  {
  }

  lemma SeqSpellsAt(first: Regex, second: Regex, a: seq<seq<(char, char)>>, b: seq<seq<(char, char)>>, s: string)
    requires Spells(first, a) && Spells(second, b)
    ensures Matches(Seq(first, second), s) <==> Fits(a + b, s)
  {
    hide Matches, Spells, Fits;
    if Matches(Seq(first, second), s) {
      var i := SeqCut(first, second, s);
      SpellsAt(first, a, s[..i]);
      SpellsAt(second, b, s[i..]);
      FitsBoth(a, b, s[..i], s[i..]);
      assert s[..i] + s[i..] == s;
    }
    if Fits(a + b, s) {
      FitsSplit(a, b, s);
      SpellsAt(first, a, s[..|a|]);
      SpellsAt(second, b, s[|a|..]);
      SeqAt(first, second, s[..|a|], s[|a|..]);
      assert s[..|a|] + s[|a|..] == s;
    }
  }

  lemma SeqSpells(first: Regex, second: Regex, a: seq<seq<(char, char)>>, b: seq<seq<(char, char)>>)
    requires Spells(first, a) && Spells(second, b)
    ensures Spells(Seq(first, second), a + b)
  {
    hide Matches, Fits;
    forall s
      ensures Matches(Seq(first, second), s) <==> Fits(a + b, s)
    {
      SeqSpellsAt(first, second, a, b, s);
    }
  }

  function Repeat(ranges: seq<(char, char)>, n: nat): seq<seq<(char, char)>> {
    seq(n, i => ranges)
  }

  lemma {:induction false} TimesSpells(ranges: seq<(char, char)>, n: nat)
    ensures Spells(Times(Class(ranges), n), Repeat(ranges, n))
  {
    if n > 0 {
      TimesSpells(ranges, n - 1);
      hide Spells;
      ClassSpells(ranges);
      SeqSpells(Class(ranges), Times(Class(ranges), n - 1), [ranges], Repeat(ranges, n - 1));
      assert [ranges] + Repeat(ranges, n - 1) == Repeat(ranges, n);
    }
  }

  function Flat(lists: seq<seq<seq<(char, char)>>>): seq<seq<(char, char)>> {
    if lists == [] then [] else lists[0] + Flat(lists[1..])
  }

  lemma {:induction false} CatSpells(parts: seq<Regex>, lists: seq<seq<seq<(char, char)>>>)
    requires |parts| == |lists| && forall i :: 0 <= i < |parts| ==> Spells(parts[i], lists[i])
    ensures Spells(Cat(parts), Flat(lists))
  {
    if parts != [] {
      CatSpells(parts[1..], lists[1..]);
      hide Spells;
      SeqSpells(parts[0], Cat(parts[1..]), lists[0], Flat(lists[1..]));
    }
  }

  // ----- UUIDs -----

  const HEX: seq<(char, char)> := [DIGIT, ('a', 'f')]
  const DASH: seq<(char, char)> := [('-', '-')]
  const VERSION: seq<(char, char)> := [('1', '5')]
  const VARIANT: seq<(char, char)> := [('8', '9'), ('a', 'b')]

  predicate IsHex(c: char) {
    '0' <= c <= '9' || 'a' <= c <= 'f'
  }

  lemma UuidClasses(c: char)
    ensures InClass(HEX, c) <==> IsHex(c)
    ensures InClass(DASH, c) <==> c == '-'
    ensures InClass(VERSION, c) <==> '1' <= c <= '5'
    ensures InClass(VARIANT, c) <==> c == '8' || c == '9' || c == 'a' || c == 'b'
  {
    assert HEX[0] == DIGIT && HEX[1] == ('a', 'f');
    assert DASH[0] == ('-', '-') && VERSION[0] == ('1', '5');
    assert VARIANT[0] == ('8', '9') && VARIANT[1] == ('a', 'b');
  }

  /** The classes of the eleven parts of a UUID. */
  predicate IsUuidLists(lists: seq<seq<seq<(char, char)>>>) {
    && |lists| == 11
    && lists[0] == Repeat(HEX, 8) && lists[1] == Repeat(DASH, 1) && lists[2] == Repeat(HEX, 4) && lists[3] == Repeat(DASH, 1)
    && lists[4] == Repeat(VERSION, 1) && lists[5] == Repeat(HEX, 3) && lists[6] == Repeat(DASH, 1)
    && lists[7] == Repeat(VARIANT, 1) && lists[8] == Repeat(HEX, 3) && lists[9] == Repeat(DASH, 1) && lists[10] == Repeat(HEX, 12)
  }

  lemma OneSpells(ranges: seq<(char, char)>)
    ensures Spells(Class(ranges), Repeat(ranges, 1))
  {
    hide Spells;
    ClassSpells(ranges);
    assert Repeat(ranges, 1) == [ranges];
  }

  lemma UuidPartsSpell() returns (lists: seq<seq<seq<(char, char)>>>)
    ensures IsUuidLists(lists) && |UuidParts()| == 11
    ensures forall i :: 0 <= i < 11 ==> Spells(UuidParts()[i], lists[i])
  {
    hide Spells, Repeat;
    lists := [Repeat(HEX, 8), Repeat(DASH, 1), Repeat(HEX, 4), Repeat(DASH, 1), Repeat(VERSION, 1), Repeat(HEX, 3),
              Repeat(DASH, 1), Repeat(VARIANT, 1), Repeat(HEX, 3), Repeat(DASH, 1), Repeat(HEX, 12)];
    TimesSpells(HEX, 8);
    TimesSpells(HEX, 4);
    TimesSpells(HEX, 3);
    TimesSpells(HEX, 12);
    OneSpells(DASH);
    OneSpells(VERSION);
    OneSpells(VARIANT);
  }

  /** The class of each position of a UUID. */
  function UuidClass(i: int): seq<(char, char)> {
    if i == 8 || i == 13 || i == 18 || i == 23 then DASH else if i == 14 then VERSION else if i == 19 then VARIANT else HEX
  }

  /** One more stretch of a single class, from the back. */
  lemma FlatStretch(lists: seq<seq<seq<(char, char)>>>, k: nat, c: seq<seq<(char, char)>>, from: nat, to: nat, ranges: seq<(char, char)>)
    requires k < |lists| && from <= to <= |c| && lists[k] == Repeat(ranges, to - from)
    requires forall i :: from <= i < to ==> c[i] == ranges
    requires Flat(lists[k + 1..]) == c[to..]
    ensures Flat(lists[k..]) == c[from..]
  {
    assert lists[k..][0] == lists[k] && lists[k..][1..] == lists[k + 1..];
    assert c[from..to] == Repeat(ranges, to - from);
    assert c[from..] == c[from..to] + c[to..];
  }

  lemma FlatEnd(lists: seq<seq<seq<(char, char)>>>, c: seq<seq<(char, char)>>)
    requires IsUuidLists(lists)
    requires |c| == 36 && forall i :: 0 <= i < 36 ==> c[i] == UuidClass(i)
    ensures Flat(lists[8..]) == c[20..]
  {
    assert lists[11..] == [] && Flat(lists[11..]) == [] == c[36..];
    hide Flat, Repeat;
    FlatStretch(lists, 10, c, 24, 36, HEX);
    FlatStretch(lists, 9, c, 23, 24, DASH);
    FlatStretch(lists, 8, c, 20, 23, HEX);
  }

  lemma FlatMiddle(lists: seq<seq<seq<(char, char)>>>, c: seq<seq<(char, char)>>)
    requires IsUuidLists(lists)
    requires |c| == 36 && forall i :: 0 <= i < 36 ==> c[i] == UuidClass(i)
    ensures Flat(lists[4..]) == c[14..]
  {
    FlatEnd(lists, c);
    hide Flat, Repeat;
    FlatStretch(lists, 7, c, 19, 20, VARIANT);
    FlatStretch(lists, 6, c, 18, 19, DASH);
    FlatStretch(lists, 5, c, 15, 18, HEX);
    FlatStretch(lists, 4, c, 14, 15, VERSION);
  }

  lemma FlatUuid(lists: seq<seq<seq<(char, char)>>>, c: seq<seq<(char, char)>>)
    requires IsUuidLists(lists)
    requires |c| == 36 && forall i :: 0 <= i < 36 ==> c[i] == UuidClass(i)
    ensures Flat(lists) == c
  {
    FlatMiddle(lists, c);
    hide Flat, Repeat;
    FlatStretch(lists, 3, c, 13, 14, DASH);
    FlatStretch(lists, 2, c, 9, 13, HEX);
    FlatStretch(lists, 1, c, 8, 9, DASH);
    FlatStretch(lists, 0, c, 0, 8, HEX);
    assert lists[0..] == lists && c[0..] == c;
  }

  /** The characters a UUID may have at a position. */
  predicate UuidChar(i: int, c: char) {
    if i == 8 || i == 13 || i == 18 || i == 23 then c == '-'
    else if i == 14 then '1' <= c <= '5'
    else if i == 19 then c == '8' || c == '9' || c == 'a' || c == 'b'
    else '0' <= c <= '9' || 'a' <= c <= 'f'
  }

  lemma UuidClassIs(i: int, c: char)
    ensures InClass(UuidClass(i), c) <==> UuidChar(i, c)
  {
    UuidClasses(c);
    hide InClass;
  }

  /** The Uuid pattern, position by position. */
  lemma UuidIs(s: string)
    ensures Matches(Uuid(), s) <==> |s| == 36 && forall i :: 0 <= i < 36 ==> UuidChar(i, s[i])
  {
    var classes := seq(36, i => UuidClass(i));
    hide UuidParts, Uuid, IsUuidLists, UuidClass, Spells, Matches, Fits, Flat, Cat, UuidChar;
    UuidIsCat();
    var lists := UuidPartsSpell();
    CatSpells(UuidParts(), lists);
    SpellsAt(Cat(UuidParts()), Flat(lists), s);
    FlatUuid(lists, classes);
    FitsUuid(classes, s);
  }

  lemma UuidIsCat()
    ensures Uuid() == Cat(UuidParts())
  {
  }

  lemma FitsUuid(classes: seq<seq<(char, char)>>, s: string)
    requires |classes| == 36 && forall i :: 0 <= i < 36 ==> classes[i] == UuidClass(i)
    ensures Fits(classes, s) <==> |s| == 36 && forall i :: 0 <= i < 36 ==> UuidChar(i, s[i])
  {
    hide InClass, UuidClass, UuidChar;
    if |s| == 36 {
      forall i | 0 <= i < 36
        ensures InClass(classes[i], s[i]) <==> UuidChar(i, s[i])
      {
        UuidClassIs(i, s[i]);
      }
    }
  }

  // ----- names -----

  const WORD_CLASS: seq<(char, char)> := [LOWER, DIGIT]
  const COMPONENT_CLASS: seq<(char, char)> := [LOWER, DIGIT, ('.', '.'), ('_', '_'), ('-', '-')]
  const TWO_MARKS: seq<(char, char)> := [('.', '.'), ('-', '-')]
  const THREE_MARKS: seq<(char, char)> := [('.', '.'), ('_', '_'), ('-', '-')]

  predicate IsWordChar(c: char) {
    'a' <= c <= 'z' || '0' <= c <= '9'
  }

  lemma NameClasses(c: char)
    ensures InClass(WORD_CLASS, c) <==> IsWordChar(c)
    ensures InClass([LOWER], c) <==> 'a' <= c <= 'z'
    ensures InClass(COMPONENT_CLASS, c) <==> IsWordChar(c) || c == '.' || c == '_' || c == '-'
    ensures InClass(TWO_MARKS, c) <==> c == '.' || c == '-'
    ensures InClass(THREE_MARKS, c) <==> c == '.' || c == '_' || c == '-'
  {
    assert WORD_CLASS[0] == LOWER && WORD_CLASS[1] == DIGIT && [LOWER][0] == LOWER;
    assert COMPONENT_CLASS[0] == LOWER && COMPONENT_CLASS[1] == DIGIT && COMPONENT_CLASS[2] == ('.', '.')
        && COMPONENT_CLASS[3] == ('_', '_') && COMPONENT_CLASS[4] == ('-', '-');
    assert TWO_MARKS[0] == ('.', '.') && TWO_MARKS[1] == ('-', '-');
    assert THREE_MARKS[0] == ('.', '.') && THREE_MARKS[1] == ('_', '_') && THREE_MARKS[2] == ('-', '-');
  }

  ghost predicate AllIn(ranges: seq<(char, char)>, s: string) {
    forall i :: 0 <= i < |s| ==> InClass(ranges, s[i])
  }

  lemma {:induction false} UpToMatches(ranges: seq<(char, char)>, n: nat, s: string)
    ensures Matches(UpTo(Class(ranges), n), s) <==> |s| <= n && AllIn(ranges, s)
    decreases n
  {
    if n > 0 {
      var more := UpTo(Class(ranges), n - 1);
      if Matches(Seq(Class(ranges), more), s) {
        var i :| 0 <= i <= |s| && Matches(Class(ranges), s[..i]) && Matches(more, s[i..]);
        UpToMatches(ranges, n - 1, s[i..]);
        assert i == 1 && s[..1][0] == s[0];
        assert forall k :: 0 < k < |s| ==> s[k] == s[i..][k - 1];
      }
      if s != "" && |s| <= n && AllIn(ranges, s) {
        UpToMatches(ranges, n - 1, s[1..]);
        assert Matches(Class(ranges), [s[0]]);
        SeqAt(Class(ranges), more, [s[0]], s[1..]);
        assert [s[0]] + s[1..] == s;
      }
    }
  }

  /** The characters of a component ID after the first. */
  predicate IsComponentChar(c: char) {
    IsWordChar(c) || c == '.' || c == '_' || c == '-'
  }

  lemma ComponentChars(s: string)
    ensures AllIn(COMPONENT_CLASS, s) <==> forall i :: 0 <= i < |s| ==> IsComponentChar(s[i])
  {
    hide InClass, IsComponentChar;
    forall i | 0 <= i < |s|
      ensures InClass(COMPONENT_CLASS, s[i]) <==> IsComponentChar(s[i])
    {
      ComponentCharIs(s[i]);
    }
  }

  lemma ComponentCharIs(c: char)
    ensures InClass(COMPONENT_CLASS, c) <==> IsComponentChar(c)
  {
    hide InClass;
    NameClasses(c);
  }

  /** One character, then up to `n`. */
  lemma FirstThenMore(first: seq<(char, char)>, ranges: seq<(char, char)>, n: nat, s: string)
    ensures Matches(Seq(Class(first), UpTo(Class(ranges), n)), s)
       <==> 1 <= |s| <= n + 1 && InClass(first, s[0]) && AllIn(ranges, s[1..])
  {
    hide UpTo, InClass, AllIn;
    var more := UpTo(Class(ranges), n);
    if Matches(Seq(Class(first), more), s) {
      var i :| 0 <= i <= |s| && Matches(Class(first), s[..i]) && Matches(more, s[i..]);
      UpToMatches(ranges, n, s[i..]);
      assert i == 1 && s[..1][0] == s[0];
    }
    if 1 <= |s| <= n + 1 && InClass(first, s[0]) && AllIn(ranges, s[1..]) {
      UpToMatches(ranges, n, s[1..]);
      assert Matches(Class(first), [s[0]]);
      SeqAt(Class(first), more, [s[0]], s[1..]);
      assert [s[0]] + s[1..] == s;
    }
  }

  /** The ComponentId pattern: 1 to 64 characters, of which the first is a letter or a digit. */
  lemma ComponentIdIs(s: string)
    ensures Matches(ComponentId(), s)
       <==> 1 <= |s| <= 64 && IsWordChar(s[0]) && forall i :: 1 <= i < |s| ==> IsComponentChar(s[i])
  {
    hide Matches, InClass, AllIn, IsWordChar, IsComponentChar, UpTo;
    assert ComponentId() == Seq(Class(WORD_CLASS), UpTo(Class(COMPONENT_CLASS), 63));
    FirstThenMore(WORD_CLASS, COMPONENT_CLASS, 63, s);
    if s != "" {
      NameClasses(s[0]);
      ComponentChars(s[1..]);
      assert forall i :: 1 <= i < |s| ==> s[i] == s[1..][i - 1];
    }
  }

  // ----- words joined by marks -----

  /** The character is a word's, or a mark followed by a word's. */
  predicate JoinedAt(words: seq<(char, char)>, marks: seq<(char, char)>, s: string, i: nat)
    requires i < |s|
  {
    InClass(words, s[i]) || (InClass(marks, s[i]) && i + 1 < |s| && InClass(words, s[i + 1]))
  }

  ghost predicate Joined(words: seq<(char, char)>, marks: seq<(char, char)>, s: string) {
    forall i :: 0 <= i < |s| ==> JoinedAt(words, marks, s, i)
  }

  function Group(words: seq<(char, char)>, marks: seq<(char, char)>): Regex {
    Seq(Class(marks), Plus(Class(words)))
  }

  lemma WordMatches(words: seq<(char, char)>, s: string)
    ensures Matches(Plus(Class(words)), s) <==> s != "" && AllIn(words, s)
  {
    hide InClass;
    if Matches(Plus(Class(words)), s) {
      var i :| 0 <= i <= |s| && Matches(Class(words), s[..i]) && Matches(Star(Class(words)), s[i..]);
      StarOfClass(words, s[i..]);
      assert i == 1 && s[..1][0] == s[0];
      assert forall k :: 0 < k < |s| ==> s[k] == s[i..][k - 1];
    }
    if s != "" && AllIn(words, s) {
      StarOfClass(words, s[1..]);
      assert Matches(Class(words), [s[0]]);
      SeqAt(Class(words), Star(Class(words)), [s[0]], s[1..]);
      assert [s[0]] + s[1..] == s;
    }
  }

  /** The word a text starts with. */
  ghost function WordLength(words: seq<(char, char)>, s: string): (n: nat)
    ensures n <= |s| && AllIn(words, s[..n]) && (n < |s| ==> !InClass(words, s[n]))
  {
    if s == "" || !InClass(words, s[0]) then 0
    else
      var n := WordLength(words, s[1..]);
      assert s[..n + 1] == [s[0]] + s[1..][..n];
      1 + n
  }

  lemma GroupMatches(words: seq<(char, char)>, marks: seq<(char, char)>, s: string)
    ensures Matches(Group(words, marks), s) <==> |s| >= 2 && InClass(marks, s[0]) && AllIn(words, s[1..])
  {
    hide InClass, Plus;
    if Matches(Group(words, marks), s) {
      var i :| 0 <= i <= |s| && Matches(Class(marks), s[..i]) && Matches(Plus(Class(words)), s[i..]);
      WordMatches(words, s[i..]);
      assert i == 1 && s[..1][0] == s[0];
    }
    if |s| >= 2 && InClass(marks, s[0]) && AllIn(words, s[1..]) {
      WordMatches(words, s[1..]);
      assert Matches(Class(marks), [s[0]]);
      SeqAt(Class(marks), Plus(Class(words)), [s[0]], s[1..]);
      assert [s[0]] + s[1..] == s;
    }
  }

  lemma JoinedTail(words: seq<(char, char)>, marks: seq<(char, char)>, s: string, n: nat)
    requires n <= |s| && Joined(words, marks, s)
    ensures Joined(words, marks, s[n..])
  {
    hide InClass;
    forall i | 0 <= i < |s[n..]|
      ensures JoinedAt(words, marks, s[n..], i)
    {
      assert JoinedAt(words, marks, s, n + i);
    }
  }

  lemma JoinedConcat(words: seq<(char, char)>, marks: seq<(char, char)>, a: string, b: string)
    requires Joined(words, marks, a) && Joined(words, marks, b)
    ensures Joined(words, marks, a + b)
  {
    hide InClass;
    forall i | 0 <= i < |a + b|
      ensures JoinedAt(words, marks, a + b, i)
    {
      assert if i < |a| then JoinedAt(words, marks, a, i) else JoinedAt(words, marks, b, i - |a|);
    }
  }

  lemma AllInIsJoined(words: seq<(char, char)>, marks: seq<(char, char)>, s: string)
    requires AllIn(words, s)
    ensures Joined(words, marks, s)
  {
    hide InClass;
  }

  lemma GroupIsJoined(words: seq<(char, char)>, marks: seq<(char, char)>, s: string)
    requires |s| >= 2 && InClass(marks, s[0]) && AllIn(words, s[1..])
    ensures Joined(words, marks, s)
  {
    hide InClass;
    assert s[1] == s[1..][0];
    assert forall i :: 0 < i < |s| ==> s[i] == s[1..][i - 1];
  }

  /** Any number of marks with a word behind each. */
  lemma {:induction false} GroupsMatch(words: seq<(char, char)>, marks: seq<(char, char)>, s: string)
    ensures Matches(Star(Group(words, marks)), s) <==> s == "" || (InClass(marks, s[0]) && Joined(words, marks, s) && |s| >= 2 && InClass(words, s[1]))
    decreases |s|
  {
    if s != "" {
      if Matches(Star(Group(words, marks)), s) {
        var i :| 0 < i <= |s| && Matches(Group(words, marks), s[..i]) && Matches(Star(Group(words, marks)), s[i..]);
        GroupsMatch(words, marks, s[i..]);
        GroupMatches(words, marks, s[..i]);
        GroupIsJoined(words, marks, s[..i]);
        JoinedConcat(words, marks, s[..i], s[i..]);
        assert s[..i] + s[i..] == s && s[..i][0] == s[0] && s[..i][1..][0] == s[1];
      }
      if InClass(marks, s[0]) && Joined(words, marks, s) && |s| >= 2 && InClass(words, s[1]) {
        FirstGroup(words, marks, s);
      }
    }
  }

  lemma {:induction false} FirstGroup(words: seq<(char, char)>, marks: seq<(char, char)>, s: string)
    requires |s| >= 2 && InClass(marks, s[0]) && Joined(words, marks, s) && InClass(words, s[1])
    ensures Matches(Star(Group(words, marks)), s)
    decreases |s|, 0
  {
    var n := 1 + WordLength(words, s[1..]);
    assert n >= 2 && s[1..n] == s[1..][..n - 1];
    hide InClass, Group;
    var rest := s[n..];
    JoinedTail(words, marks, s, n);
    GroupMatches(words, marks, s[..n]);
    assert s[..n][1..] == s[1..n] && s[..n][0] == s[0];
    if rest != "" {
      assert rest[0] == s[n] && s[1..][n - 1] == s[n];
      assert !InClass(words, rest[0]) && JoinedAt(words, marks, rest, 0);
    }
    GroupsMatch(words, marks, rest);
    assert Matches(Group(words, marks), s[..n]) && Matches(Star(Group(words, marks)), s[n..]);
  }

  lemma NameIsJoined(words: seq<(char, char)>, marks: seq<(char, char)>, s: string)
    requires Matches(Seq(Plus(Class(words)), Star(Group(words, marks))), s)
    ensures s != "" && InClass(words, s[0]) && Joined(words, marks, s)
  {
    var word, groups := Plus(Class(words)), Star(Group(words, marks));
    var i :| 0 <= i <= |s| && Matches(word, s[..i]) && Matches(groups, s[i..]);
    hide InClass, Plus, Group, Matches;
    WordMatches(words, s[..i]);
    AllInIsJoined(words, marks, s[..i]);
    GroupsMatch(words, marks, s[i..]);
    if s[i..] == "" { assert Joined(words, marks, s[i..]); }
    JoinedConcat(words, marks, s[..i], s[i..]);
    assert s[..i] + s[i..] == s && s[..i][0] == s[0];
  }

  /** A word, and any number of marks with a word behind each. */
  lemma NameMatches(words: seq<(char, char)>, marks: seq<(char, char)>, s: string)
    ensures Matches(Seq(Plus(Class(words)), Star(Group(words, marks))), s)
       <==> s != "" && InClass(words, s[0]) && Joined(words, marks, s)
  {
    hide InClass, Plus, Group, Matches;
    var word, groups := Plus(Class(words)), Star(Group(words, marks));
    if Matches(Seq(word, groups), s) { NameIsJoined(words, marks, s); }
    if s != "" && InClass(words, s[0]) && Joined(words, marks, s) {
      var n := WordLength(words, s);
      assert n > 0;
      AfterWord(words, marks, s, n);
      WordMatches(words, s[..n]);
      SeqAt(word, groups, s[..n], s[n..]);
      assert s[..n] + s[n..] == s;
    }
  }

  /** What follows the first word of a joined text is groups. */
  lemma AfterWord(words: seq<(char, char)>, marks: seq<(char, char)>, s: string, n: nat)
    requires Joined(words, marks, s) && n <= |s| && (n < |s| ==> !InClass(words, s[n]))
    ensures Matches(Star(Group(words, marks)), s[n..])
  {
    hide InClass, Group, Matches;
    JoinedTail(words, marks, s, n);
    if n < |s| { assert s[n..][0] == s[n] && JoinedAt(words, marks, s[n..], 0); }
    GroupsMatch(words, marks, s[n..]);
  }

  /** The character is a letter or digit, or a mark with one behind it. */
  predicate JoinedByAt(marks: set<char>, s: string, i: nat)
    requires i < |s|
  {
    IsWordChar(s[i]) || (s[i] in marks && i + 1 < |s| && IsWordChar(s[i + 1]))
  }

  predicate JoinedBy(marks: set<char>, s: string) {
    forall i :: 0 <= i < |s| ==> JoinedByAt(marks, s, i)
  }

  lemma TwoMarksAt(s: string, i: nat)
    requires i < |s|
    ensures JoinedAt(WORD_CLASS, TWO_MARKS, s, i) <==> JoinedByAt({'.', '-'}, s, i)
    ensures JoinedAt(WORD_CLASS, THREE_MARKS, s, i) <==> JoinedByAt({'.', '_', '-'}, s, i)
  {
    NameClasses(s[i]);
    if i + 1 < |s| { NameClasses(s[i + 1]); }
    hide InClass;
  }

  lemma JoinedByIs(s: string)
    ensures Joined(WORD_CLASS, TWO_MARKS, s) <==> JoinedBy({'.', '-'}, s)
    ensures Joined(WORD_CLASS, THREE_MARKS, s) <==> JoinedBy({'.', '_', '-'}, s)
  {
    hide JoinedAt, JoinedByAt;
    forall i | 0 <= i < |s|
      ensures JoinedAt(WORD_CLASS, TWO_MARKS, s, i) <==> JoinedByAt({'.', '-'}, s, i)
      ensures JoinedAt(WORD_CLASS, THREE_MARKS, s, i) <==> JoinedByAt({'.', '_', '-'}, s, i)
    {
      TwoMarksAt(s, i);
    }
  }

  lemma PluginIdIsName()
    ensures PluginId() == Seq(Plus(Class(WORD_CLASS)), Star(Group(WORD_CLASS, TWO_MARKS)))
  {
  }

  /** The PluginId pattern: it starts with a letter or digit, and every dot or dash has one behind it. */
  lemma PluginIdIs(s: string)
    ensures Matches(PluginId(), s) <==> s != "" && IsWordChar(s[0]) && JoinedBy({'.', '-'}, s)
  {
    hide Matches, InClass, Joined, JoinedBy, Group, PluginId, Plus;
    PluginIdIsName();
    NameMatches(WORD_CLASS, TWO_MARKS, s);
    JoinedByIs(s);
    if s != "" { NameClasses(s[0]); }
  }

  // ----- dotted names -----

  lemma CatOneIs(r: Regex, s: string)
    ensures Matches(Cat([r]), s) <==> Matches(r, s)
  {
    assert [r][1..] == [] && Cat([r]) == Seq(r, Empty);
    assert Matches(Empty, "");
    if Matches(Cat([r]), s) {
      var i := SeqCut(r, Empty, s);
      assert s[i..] == "" && s[..i] == s;
    }
    if Matches(r, s) {
      SeqAt(r, Empty, s, "");
      assert s + "" == s;
    }
  }

  lemma CatUnfold(a: Regex, b: Regex, c: Regex)
    ensures Cat([a, b, c]) == Seq(a, Cat([b, c])) && Cat([b, c]) == Seq(b, Cat([c]))
  {
    assert [a, b, c][1..] == [b, c] && [b, c][1..] == [c];
  }

  lemma CatThreeCut(a: Regex, b: Regex, c: Regex, s: string) returns (i: nat, j: nat)
    requires Matches(Cat([a, b, c]), s)
    ensures i <= j <= |s| && Matches(a, s[..i]) && Matches(b, s[i..j]) && Matches(c, s[j..])
  {
    hide Matches, Cat;
    CatUnfold(a, b, c);
    i := SeqCut(a, Cat([b, c]), s);
    var k := SeqCut(b, Cat([c]), s[i..]);
    j := i + k;
    CatOneIs(c, s[i..][k..]);
    assert s[i..][..k] == s[i..j] && s[i..][k..] == s[j..];
  }

  lemma CatThree(a: Regex, b: Regex, c: Regex, x: string, y: string, z: string)
    requires Matches(a, x) && Matches(b, y) && Matches(c, z)
    ensures Matches(Cat([a, b, c]), x + (y + z))
  {
    hide Matches, Cat;
    CatUnfold(a, b, c);
    CatOneIs(c, z);
    SeqAt(b, Cat([c]), y, z);
    SeqAt(a, Cat([b, c]), x, y + z);
  }

  lemma PlusGroups(words: seq<(char, char)>, marks: seq<(char, char)>, s: string)
    ensures Matches(Plus(Group(words, marks)), s) <==> s != "" && Matches(Star(Group(words, marks)), s)
  {
    var group := Group(words, marks);
    if Matches(Plus(group), s) {
      var i :| 0 <= i <= |s| && Matches(group, s[..i]) && Matches(Star(group), s[i..]);
      GroupMatches(words, marks, s[..i]);
      hide Group;
    }
    if s != "" && Matches(Star(group), s) {
      var i :| 0 < i <= |s| && Matches(group, s[..i]) && Matches(Star(group), s[i..]);
      hide Matches, Group;
      SeqAt(group, Star(group), s[..i], s[i..]);
      assert s[..i] + s[i..] == s;
    }
  }

  lemma DottedNameIsCat()
    ensures DottedName() == Cat([Class([LOWER]), Star(Class(WORD_CLASS)), Plus(Group(WORD_CLASS, THREE_MARKS))])
  {
  }

  lemma DottedIsJoined(s: string, i: nat, j: nat)
    requires i <= j <= |s| && Matches(Class([LOWER]), s[..i]) && Matches(Star(Class(WORD_CLASS)), s[i..j])
    requires Matches(Plus(Group(WORD_CLASS, THREE_MARKS)), s[j..])
    ensures |s| > 0 && 'a' <= s[0] <= 'z' && Joined(WORD_CLASS, THREE_MARKS, s) && j < |s| && InClass(THREE_MARKS, s[j])
  {
    assert i == 1 && s[..1][0] == s[0] && InClass([LOWER], s[0]);
    hide Matches, InClass, Group, Plus, JoinedAt;
    NameClasses(s[0]);
    PlusGroups(WORD_CLASS, THREE_MARKS, s[j..]);
    GroupsMatch(WORD_CLASS, THREE_MARKS, s[j..]);
    StarOfClass(WORD_CLASS, s[1..j]);
    assert AllIn(WORD_CLASS, s[..j]) by {
      forall k | 0 <= k < j
        ensures InClass(WORD_CLASS, s[..j][k])
      {
        if k > 0 { assert s[..j][k] == s[1..j][k - 1]; }
      }
    }
    AllInIsJoined(WORD_CLASS, THREE_MARKS, s[..j]);
    JoinedConcat(WORD_CLASS, THREE_MARKS, s[..j], s[j..]);
    assert s[..j] + s[j..] == s && s[j..][0] == s[j];
  }

  lemma {:induction false} WordEndsBefore(words: seq<(char, char)>, s: string, mark: nat)
    requires mark < |s| && !InClass(words, s[mark])
    ensures WordLength(words, s) <= mark
  {
    hide InClass;
    if mark > 0 && InClass(words, s[0]) { WordEndsBefore(words, s[1..], mark - 1); }
  }

  lemma JoinedIsDotted(s: string, mark: nat)
    requires mark < |s| && !InClass(WORD_CLASS, s[mark]) && 'a' <= s[0] <= 'z' && Joined(WORD_CLASS, THREE_MARKS, s)
    ensures Matches(DottedName(), s)
  {
    hide Matches, InClass, Group, Plus, JoinedAt, Cat, DottedName;
    var n := WordLength(WORD_CLASS, s);
    NameClasses(s[0]);
    WordEndsBefore(WORD_CLASS, s, mark);
    assert 1 <= n < |s|;
    AfterWord(WORD_CLASS, THREE_MARKS, s, n);
    PlusGroups(WORD_CLASS, THREE_MARKS, s[n..]);
    assert AllIn(WORD_CLASS, s[1..n]) by {
      assert forall k :: 0 <= k < n - 1 ==> s[1..n][k] == s[..n][k + 1];
    }
    StarOfClass(WORD_CLASS, s[1..n]);
    LetterMatches(s[0]);
    CatThree(Class([LOWER]), Star(Class(WORD_CLASS)), Plus(Group(WORD_CLASS, THREE_MARKS)), [s[0]], s[1..n], s[n..]);
    assert [s[0]] + (s[1..n] + s[n..]) == s;
    DottedNameIsCat();
  }

  lemma LetterMatches(c: char)
    requires 'a' <= c <= 'z'
    ensures Matches(Class([LOWER]), [c])
  {
    NameClasses(c);
  }

  /** The DottedName pattern: it starts with a letter, every mark has a letter or digit behind it, and there is a mark. */
  lemma DottedNameIs(s: string)
    ensures Matches(DottedName(), s)
       <==> && s != "" && 'a' <= s[0] <= 'z' && JoinedBy({'.', '_', '-'}, s)
            && exists i :: 0 <= i < |s| && s[i] in {'.', '_', '-'}
  {
    hide Matches, InClass, Group, Plus, Joined, JoinedBy, Cat, DottedName;
    JoinedByIs(s);
    DottedNameIsCat();
    if Matches(DottedName(), s) {
      var i, j := CatThreeCut(Class([LOWER]), Star(Class(WORD_CLASS)), Plus(Group(WORD_CLASS, THREE_MARKS)), s);
      DottedIsJoined(s, i, j);
      NameClasses(s[j]);
    }
    if s != "" && 'a' <= s[0] <= 'z' && JoinedBy({'.', '_', '-'}, s) {
      if i :| 0 <= i < |s| && s[i] in {'.', '_', '-'} {
        NameClasses(s[i]);
        JoinedIsDotted(s, i);
      }
    }
  }
}
