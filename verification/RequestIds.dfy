/** The UI bridge's request identifiers: `ui-<clock in base 36>-<sequence in base 36>` (`ui/src/index.ts`). */
module RequestIds {
  import opened Text

  /** Above this JavaScript's `++` no longer changes a number. */
  const MAX_COUNTER := 0x20_0000_0000_0000

  function Digit36(d: int): (c: char)
    requires 0 <= d < 36
    ensures c != '-'
  {
    if d < 10 then '0' + d as char else 'a' + (d - 10) as char
  }

  function Natural36(n: nat): (s: string)
    ensures s != "" && '-' !in s
  {
    if n < 36 then [Digit36(n)] else Natural36(n / 36) + [Digit36(n % 36)]
  }

  /** `n.toString(36)` of an integer. */
  function Base36(n: int): string {
    if n < 0 then "-" + Natural36(-n) else Natural36(n)
  }

  lemma {:induction false} Natural36Injective(a: nat, b: nat)
    requires Natural36(a) == Natural36(b)
    ensures a == b
  {
    var s := Natural36(a);
    assert s[|s| - 1] == Digit36(a % 36) && s[|s| - 1] == Digit36(b % 36);
    if a >= 36 {
      assert s[..|s| - 1] == Natural36(a / 36);
      assert s[..|s| - 1] != "";
      assert s[..|s| - 1] == Natural36(b / 36);
      Natural36Injective(a / 36, b / 36);
    }
  }

  function RequestId(now: int, sequence: nat): string {
    "ui-" + Base36(now) + "-" + Natural36(sequence)
  }

  const ALPHABET := "0123456789abcdefghijklmnopqrstuvwxyz"

  function Pow36(width: nat): (power: nat)
    ensures power > 0
  {
    if width == 0 then 1 else 36 * Pow36(width - 1)
  }

  lemma DigitIs(d: int)
    requires 0 <= d < 36
    ensures Digit36(d) == ALPHABET[d]
  {
  }

  lemma Shifted(n: nat, k: nat)
    requires n >= 36 && 0 < k < |Natural36(n)|
    ensures k - 1 < |Natural36(n / 36)| && Natural36(n)[|Natural36(n)| - 1 - k] == Natural36(n / 36)[|Natural36(n / 36)| - k]
  {
    hide Digit36;
  }

  lemma {:induction false} DigitOf(n: nat, k: nat)
    requires k < |Natural36(n)|
    ensures Natural36(n)[|Natural36(n)| - 1 - k] == Digit36(n / Pow36(k) % 36)
    decreases n
  {
    hide Digit36;
    if k > 0 {
      assert n >= 36;
      Shifted(n, k);
      DigitOf(n / 36, k - 1);
      DivDiv(n, 36, Pow36(k - 1));
      hide Natural36;
    }
  }

  /** Base 36, digit by digit from the right. */
  lemma Natural36At(n: nat, k: nat)
    requires k < |Natural36(n)|
    ensures Natural36(n)[|Natural36(n)| - 1 - k] == ALPHABET[n / Pow36(k) % 36]
  {
    hide Natural36, Digit36, Pow36;
    DigitOf(n, k);
    DigitIs(n / Pow36(k) % 36);
  }

  /** As many digits as it takes. */
  lemma {:induction false} Natural36Length(n: nat)
    ensures n < Pow36(|Natural36(n)|) && (n > 0 ==> n >= Pow36(|Natural36(n)| - 1)) && (n == 0 ==> |Natural36(n)| == 1)
  {
    if n >= 36 { Natural36Length(n / 36); }
  }

  /** An ID is the clock and the sequence number between dashes. */
  lemma RequestIdIs(now: int, sequence: nat)
    ensures now >= 0 ==> RequestId(now, sequence) == "ui-" + Natural36(now) + "-" + Natural36(sequence)
    ensures now < 0 ==> RequestId(now, sequence) == "ui--" + Natural36(0 - now) + "-" + Natural36(sequence)
  {
  }

  /** What follows the last dash of a string. */
  function AfterLastDash(s: string): (suffix: string)
    ensures '-' !in suffix
  {
    if s == "" then ""
    else if s[|s| - 1] == '-' then ""
    else AfterLastDash(s[..|s| - 1]) + [s[|s| - 1]]
  }

  lemma {:induction false} SuffixRecovered(prefix: string, suffix: string)
    requires '-' !in suffix
    ensures AfterLastDash(prefix + "-" + suffix) == suffix
  {
    var s := prefix + "-" + suffix;
    if suffix != "" {
      var init := suffix[..|suffix| - 1];
      assert s[..|s| - 1] == prefix + "-" + init;
      assert s[|s| - 1] == suffix[|suffix| - 1];
      SuffixRecovered(prefix, init);
    }
  }

  /** Whatever the clock reads, repeated or running backwards, an ID tells which sequence number made it. */
  lemma RequestIdDeterminesSequence(now: int, sequence: nat, now': int, sequence': nat)
    requires RequestId(now, sequence) == RequestId(now', sequence')
    ensures sequence == sequence'
  {
    SuffixRecovered("ui-" + Base36(now), Natural36(sequence));
    SuffixRecovered("ui-" + Base36(now'), Natural36(sequence'));
    Natural36Injective(sequence, sequence');
  }

  /** `++sequence` on a JavaScript number. */
  function Increment(n: nat): nat {
    if n < MAX_COUNTER then n + 1 else n
  }

  /** The sequence number of the `call`-th call. */
  function SequenceOf(call: nat): nat {
    if call == 0 then 0 else Increment(SequenceOf(call - 1))
  }

  lemma {:induction false} SequenceOfCall(call: nat)
    ensures SequenceOf(call) == if call <= MAX_COUNTER then call else MAX_COUNTER
  {
    if call > 0 { SequenceOfCall(call - 1); }
  }

  /** Two calls can only share an ID when the counter has stopped at 2^53. */
  lemma RequestIdsDistinct(now: int, first: nat, now': int, second: nat)
    requires first < second && RequestId(now, SequenceOf(first)) == RequestId(now', SequenceOf(second))
    ensures first >= MAX_COUNTER
  {
    RequestIdDeterminesSequence(now, SequenceOf(first), now', SequenceOf(second));
    SequenceOfCall(first);
    SequenceOfCall(second);
  }
}
