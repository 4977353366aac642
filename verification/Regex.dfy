/** Regular expressions as the validators use them: `regexp.MustCompile("^...$").MatchString`. */
module Regex {

  datatype Regex =
    | Empty
    | Class(ranges: seq<(char, char)>)
    | Seq(first: Regex, second: Regex)
    | Alt(left: Regex, right: Regex)
    | Star(body: Regex)

  predicate InClass(ranges: seq<(char, char)>, c: char) {
    exists i :: 0 <= i < |ranges| && ranges[i].0 <= c <= ranges[i].1
  }

  /** The whole string is in the expression's language. */
  predicate Matches(r: Regex, s: string)
    decreases r, |s|
  {
    match r
    case Empty => s == ""
    case Class(ranges) => |s| == 1 && InClass(ranges, s[0])
    case Seq(first, second) => exists i :: 0 <= i <= |s| && Matches(first, s[..i]) && Matches(second, s[i..])
    case Alt(left, right) => Matches(left, s) || Matches(right, s)
    case Star(body) => s == "" || exists i :: 0 < i <= |s| && Matches(body, s[..i]) && Matches(r, s[i..])
  }

  function One(c: char): Regex {
    Class([(c, c)])
  }

  function Plus(r: Regex): Regex {
    Seq(r, Star(r))
  }

  function Opt(r: Regex): Regex {
    Alt(Empty, r)
  }

  /** One after another. */
  function Cat(parts: seq<Regex>): Regex {
    if parts == [] then Empty else Seq(parts[0], Cat(parts[1..]))
  }

  function Times(r: Regex, n: nat): Regex {
    if n == 0 then Empty else Seq(r, Times(r, n - 1))
  }

  function UpTo(r: Regex, n: nat): Regex {
    if n == 0 then Empty else Opt(Seq(r, UpTo(r, n - 1)))
  }

  // ----- what the constructions match -----

  lemma {:induction false} StarOfClass(ranges: seq<(char, char)>, s: string)
    ensures Matches(Star(Class(ranges)), s) <==> forall i :: 0 <= i < |s| ==> InClass(ranges, s[i])
    decreases |s|
  {
    if s != "" {
      StarOfClass(ranges, s[1..]);
      if Matches(Star(Class(ranges)), s) {
        var i :| 0 < i <= |s| && Matches(Class(ranges), s[..i]) && Matches(Star(Class(ranges)), s[i..]);
        assert i == 1 && s[..1][0] == s[0];
      }
      if forall i :: 0 <= i < |s| ==> InClass(ranges, s[i]) {
        assert s[..1] == [s[0]] && Matches(Class(ranges), s[..1]);
        assert forall i :: 0 <= i < |s[1..]| ==> s[1..][i] == s[i + 1];
      }
    }
  }

  lemma SeqAt(first: Regex, second: Regex, a: string, b: string)
    requires Matches(first, a) && Matches(second, b)
    ensures Matches(Seq(first, second), a + b)
  {
    assert (a + b)[..|a|] == a && (a + b)[|a|..] == b;
  }

  // ----- the characters an expression can consume -----

  predicate Avoids(r: Regex, c: char) {
    match r
    case Empty => true
    case Class(ranges) => !InClass(ranges, c)
    case Seq(first, second) => Avoids(first, c) && Avoids(second, c)
    case Alt(left, right) => Avoids(left, c) && Avoids(right, c)
    case Star(body) => Avoids(body, c)
  }

  lemma {:induction false} MatchAvoids(r: Regex, s: string, c: char)
    requires Matches(r, s) && Avoids(r, c)
    ensures c !in s
    decreases r, |s|
  {
    match r
    case Empty =>
    case Class(_) =>
    case Seq(first, second) =>
      var i :| 0 <= i <= |s| && Matches(first, s[..i]) && Matches(second, s[i..]);
      MatchAvoids(first, s[..i], c);
      MatchAvoids(second, s[i..], c);
      assert s == s[..i] + s[i..];
    case Alt(left, right) =>
      if Matches(left, s) { MatchAvoids(left, s, c); } else { MatchAvoids(right, s, c); }
    case Star(body) =>
      if s != "" {
        var i :| 0 < i <= |s| && Matches(body, s[..i]) && Matches(r, s[i..]);
        MatchAvoids(body, s[..i], c);
        MatchAvoids(r, s[i..], c);
        assert s == s[..i] + s[i..];
      }
  }

  lemma {:induction false} CatAvoids(parts: seq<Regex>, c: char)
    requires forall i :: 0 <= i < |parts| ==> Avoids(parts[i], c)
    ensures Avoids(Cat(parts), c)
  {
    if parts != [] { CatAvoids(parts[1..], c); }
  }

  lemma {:induction false} TimesAvoids(r: Regex, n: nat, c: char)
    requires Avoids(r, c)
    ensures Avoids(Times(r, n), c) && Avoids(UpTo(r, n), c)
  {
    if n > 0 { TimesAvoids(r, n - 1, c); }
  }

  // ----- how long a match can be -----

  predicate Bounded(r: Regex, limit: nat) {
    match r
    case Empty => true
    case Class(_) => limit >= 1
    case Seq(first, second) => exists n: nat :: n <= limit && Bounded(first, n) && Bounded(second, limit - n)
    case Alt(left, right) => Bounded(left, limit) && Bounded(right, limit)
    case Star(_) => false
  }

  lemma {:induction false} MatchBounded(r: Regex, s: string, limit: nat)
    requires Matches(r, s) && Bounded(r, limit)
    ensures |s| <= limit
    decreases r
  {
    match r
    case Empty =>
    case Class(_) =>
    case Seq(first, second) =>
      var i :| 0 <= i <= |s| && Matches(first, s[..i]) && Matches(second, s[i..]);
      var n: nat :| n <= limit && Bounded(first, n) && Bounded(second, limit - n);
      MatchBounded(first, s[..i], n);
      MatchBounded(second, s[i..], limit - n);
    case Alt(left, right) =>
      if Matches(left, s) { MatchBounded(left, s, limit); } else { MatchBounded(right, s, limit); }
    case Star(_) =>
  }

  lemma {:induction false} TimesBounded(ranges: seq<(char, char)>, n: nat)
    ensures Bounded(Times(Class(ranges), n), n)
  {
    if n > 0 {
      TimesBounded(ranges, n - 1);
      assert Bounded(Class(ranges), 1) && Bounded(Times(Class(ranges), n - 1), n - 1);
    }
  }

  lemma {:induction false} CatBounded(parts: seq<Regex>, limits: seq<nat>)
    requires |parts| == |limits| && forall i :: 0 <= i < |parts| ==> Bounded(parts[i], limits[i])
    ensures Bounded(Cat(parts), Sum(limits))
  {
    if parts != [] {
      CatBounded(parts[1..], limits[1..]);
      assert Bounded(parts[0], limits[0]) && Bounded(Cat(parts[1..]), Sum(limits) - limits[0]);
    }
  }

  function Sum(limits: seq<nat>): nat {
    if limits == [] then 0 else limits[0] + Sum(limits[1..])
  }
}
