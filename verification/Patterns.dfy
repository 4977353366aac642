/** The identifier patterns shared by the validators. */
module Patterns {
  import opened Regex

  const LOWER := ('a', 'z')
  const DIGIT := ('0', '9')

  function HexDigits(n: nat): Regex {
    Times(Class([DIGIT, ('a', 'f')]), n)
  }

  /** `^[0-9a-f]{8}-[0-9a-f]{4}-[1-5][0-9a-f]{3}-[89ab][0-9a-f]{3}-[0-9a-f]{12}$` */
  function Uuid(): Regex {
    Cat(UuidParts())
  }

  function UuidParts(): seq<Regex> {
    [HexDigits(8), One('-'), HexDigits(4), One('-'), Class([('1', '5')]), HexDigits(3), One('-'),
     Class([('8', '9'), ('a', 'b')]), HexDigits(3), One('-'), HexDigits(12)]
  }

  /** `^[a-z0-9][a-z0-9._-]{0,63}$` */
  function ComponentId(): Regex {
    Seq(Class([LOWER, DIGIT]), UpTo(Class([LOWER, DIGIT, ('.', '.'), ('_', '_'), ('-', '-')]), 63))
  }

  /** `^[a-z0-9]+(?:[.-][a-z0-9]+)*$`; the validators also limit it to 128 bytes. */
  function PluginId(): Regex {
    var word := Plus(Class([LOWER, DIGIT]));
    Seq(word, Star(Seq(Class([('.', '.'), ('-', '-')]), word)))
  }

  /** `^[a-z][a-z0-9]*(?:[._-][a-z0-9]+)+$`, for capabilities, event kinds and command kinds. */
  function DottedName(): Regex {
    var letters := Class([LOWER, DIGIT]);
    Cat([Class([LOWER]), Star(letters), Plus(Seq(Class([('.', '.'), ('_', '_'), ('-', '-')]), Plus(letters)))])
  }

  /** The characters no identifier contains. */
  predicate Foreign(c: char) {
    !('a' <= c <= 'z') && !('0' <= c <= '9') && c != '.' && c != '_' && c != '-'
  }

  lemma HexAvoids(n: nat, c: char)
    requires Foreign(c)
    ensures Avoids(HexDigits(n), c)
  {
    TimesAvoids(Class([DIGIT, ('a', 'f')]), n, c);
  }

  lemma UuidAvoids(c: char)
    requires Foreign(c)
    ensures Avoids(Uuid(), c)
  {
    hide HexDigits, Matches;
    HexAvoids(8, c);
    HexAvoids(4, c);
    HexAvoids(3, c);
    HexAvoids(12, c);
    assert Avoids(One('-'), c) && Avoids(Class([('1', '5')]), c) && Avoids(Class([('8', '9'), ('a', 'b')]), c);
    CatAvoids(UuidParts(), c);
  }

  lemma HexBounded(n: nat)
    ensures Bounded(HexDigits(n), n)
  {
    TimesBounded([DIGIT, ('a', 'f')], n);
  }

  const UUID_LIMITS: seq<nat> := [8, 1, 4, 1, 1, 3, 1, 1, 3, 1, 12]

  lemma UuidPartsBounded()
    ensures |UuidParts()| == 11
    ensures forall i :: 0 <= i < 11 ==> Bounded(UuidParts()[i], UUID_LIMITS[i])
  {
    HexBounded(8);
    HexBounded(4);
    HexBounded(3);
    HexBounded(12);
  }

  lemma SumOf(limits: seq<nat>, total: nat)
    requires |limits| == 11
    requires total == limits[0] + limits[1] + limits[2] + limits[3] + limits[4] + limits[5]
                    + limits[6] + limits[7] + limits[8] + limits[9] + limits[10]
    ensures Sum(limits) == total
  {
    assert Sum(limits[10..]) == limits[10] + Sum(limits[11..]);
    assert Sum(limits[9..]) == limits[9] + limits[10];
    assert Sum(limits[7..]) == limits[7] + limits[8] + Sum(limits[9..]);
    assert Sum(limits[5..]) == limits[5] + limits[6] + Sum(limits[7..]);
    assert Sum(limits[3..]) == limits[3] + limits[4] + Sum(limits[5..]);
    assert Sum(limits[1..]) == limits[1] + limits[2] + Sum(limits[3..]);
  }

  lemma UuidBounded()
    ensures Bounded(Uuid(), 36)
  {
    UuidPartsBounded();
    CatBounded(UuidParts(), UUID_LIMITS);
    SumOf(UUID_LIMITS, 36);
  }

  lemma UuidLength(s: string)
    requires Matches(Uuid(), s)
    ensures |s| <= 36
  {
    UuidBounded();
    MatchBounded(Uuid(), s, 36);
  }

  lemma ComponentIdAvoids(c: char)
    requires Foreign(c)
    ensures Avoids(ComponentId(), c)
  {
    TimesAvoids(Class([LOWER, DIGIT, ('.', '.'), ('_', '_'), ('-', '-')]), 63, c);
  }

  lemma PluginIdAvoids(c: char)
    requires Foreign(c)
    ensures Avoids(PluginId(), c)
  {
    var word := Plus(Class([LOWER, DIGIT]));
    assert Avoids(word, c);
    assert Avoids(Seq(Class([('.', '.'), ('-', '-')]), word), c);
  }

  lemma DottedNameAvoids(c: char)
    requires Foreign(c)
    ensures Avoids(DottedName(), c)
  {
    var letters := Class([LOWER, DIGIT]);
    var separator := Class([('.', '.'), ('_', '_'), ('-', '-')]);
    assert Avoids(letters, c) && Avoids(separator, c);
    assert Avoids(Plus(letters), c);
    var group := Seq(separator, Plus(letters));
    assert Avoids(group, c);
    assert Avoids(Plus(group), c);
    CatAvoids([Class([LOWER]), Star(letters), Plus(group)], c);
  }

  /** No accepted identifier contains NUL, a quote, a backslash, a control character or anything beyond ASCII. */
  lemma IdentifiersAreClean(s: string, c: char)
    requires Foreign(c)
    requires Matches(Uuid(), s) || Matches(ComponentId(), s) || Matches(PluginId(), s) || Matches(DottedName(), s)
    ensures c !in s
  {
    if Matches(Uuid(), s) {
      UuidAvoids(c);
      MatchAvoids(Uuid(), s, c);
    } else if Matches(ComponentId(), s) {
      ComponentIdAvoids(c);
      MatchAvoids(ComponentId(), s, c);
    } else if Matches(PluginId(), s) {
      PluginIdAvoids(c);
      MatchAvoids(PluginId(), s, c);
    } else {
      DottedNameAvoids(c);
      MatchAvoids(DottedName(), s, c);
    }
  }

  /** `^[0-9a-f]{n}$` for digests and stream IDs, as a direct test. */
  predicate LowerHex(s: string, n: nat) {
    |s| == n && forall c :: c in s ==> ('0' <= c <= '9' || 'a' <= c <= 'f')
  }
}
