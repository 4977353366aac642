/**
 Byte strings. A Go string is a `string` whose characters stand for bytes; Go's `<` on strings is `Less`.
 */
module Text {

  datatype Option<+T> = None | Some(value: T)

  // ----- order -----

  /** Go's `a < b`: byte-wise, a proper prefix comes first. */
  predicate Less(a: string, b: string) {
    b != "" && (a == "" || a[0] < b[0] || (a[0] == b[0] && Less(a[1..], b[1..])))
  }

  lemma {:induction false} LessTransitive(a: string, b: string, c: string)
    requires Less(a, b) && Less(b, c)
    ensures Less(a, c)
  {
    if a != "" && a[0] == b[0] && b[0] == c[0] {
      LessTransitive(a[1..], b[1..], c[1..]);
    }
  }

  lemma {:induction false} LessTotal(a: string, b: string)
    ensures Less(a, b) || a == b || Less(b, a)
    ensures !(Less(a, b) && Less(b, a)) && !Less(a, a)
  {
    if a != "" && b != "" && a[0] == b[0] {
      LessTotal(a[1..], b[1..]);
      assert a == [a[0]] + a[1..] && b == [b[0]] + b[1..];
    }
    if a != "" {
      LessTotal(a[1..], a[1..]);
    }
  }

  /** The strings differ first at `i`, where `a` has the smaller byte. */
  predicate SmallerAt(a: string, b: string, i: nat) {
    i < |a| && i < |b| && a[..i] == b[..i] && a[i] < b[i]
  }

  lemma SameFirst(a: string, b: string, i: nat)
    requires SmallerAt(a, b, i) && i > 0
    ensures a[0] == b[0]
  {
    assert a[..i][0] == b[..i][0];
  }

  /** The order is bytewise: a proper prefix comes first, and otherwise the first different byte decides. */
  lemma {:induction false} LessIsBytewise(a: string, b: string)
    ensures Less(a, b) <==> (a < b || exists i: nat :: SmallerAt(a, b, i))
  {
    if a != "" && b != "" && a[0] == b[0] {
      LessIsBytewise(a[1..], b[1..]);
      assert a == [a[0]] + a[1..] && b == [b[0]] + b[1..];
      if i: nat :| SmallerAt(a[1..], b[1..], i) {
        assert a[..i + 1] == [a[0]] + a[1..][..i] && b[..i + 1] == [b[0]] + b[1..][..i];
        assert SmallerAt(a, b, i + 1);
      }
      if i: nat :| SmallerAt(a, b, i) {
        assert a[..i][1..] == a[1..][..i - 1] && b[..i][1..] == b[1..][..i - 1];
        assert SmallerAt(a[1..], b[1..], i - 1);
      }
    } else if a != "" && b != "" {
      if a[0] < b[0] { assert SmallerAt(a, b, 0); }
      if i: nat :| SmallerAt(a, b, i) {
        if i > 0 {
          SameFirst(a, b, i);
          assert false;
        }
      }
    }
  }

  // ----- joining with NUL -----

  /** `first + "\x00" + rest`, the composite key of every ordering loop. */
  function Join(first: string, rest: string): string {
    first + "\0" + rest
  }

  lemma JoinTail(first: string, rest: string)
    requires first != ""
    ensures Join(first, rest)[0] == first[0] && Join(first, rest)[1..] == Join(first[1..], rest)
  {
  }

  lemma JoinEmpty(rest: string)
    ensures Join("", rest)[0] == '\0' && Join("", rest)[1..] == rest
  {
  }

  /** Comparing joined keys is comparing the pairs, even when one first component is a prefix of the other. */
  lemma {:induction false} JoinOrder(a: string, x: string, b: string, y: string)
    requires '\0' !in a && '\0' !in b
    ensures Less(Join(a, x), Join(b, y)) <==> Less(a, b) || (a == b && Less(x, y))
  {
    if a == "" { JoinEmpty(x); } else { JoinTail(a, x); }
    if b == "" { JoinEmpty(y); } else { JoinTail(b, y); }
    if a != "" && b != "" {
      JoinOrder(a[1..], x, b[1..], y);
      assert a == [a[0]] + a[1..] && b == [b[0]] + b[1..];
    }
  }

  /** A text splits in only one way at the first occurrence of a mark. */
  lemma {:induction false} SplitUnique(a: string, x: string, b: string, y: string, mark: char)
    requires mark !in a && mark !in b && a + ([mark] + x) == b + ([mark] + y)
    ensures a == b && x == y
  {
    var s := a + ([mark] + x);
    if a == "" || b == "" {
      assert s[0] == mark && s[1..] == x && s[1..] == y by {
        assert a == "" ==> s[0] == mark;
        assert b == "" ==> s[0] == mark;
      }
    } else {
      assert s[1..] == a[1..] + ([mark] + x) && s[1..] == b[1..] + ([mark] + y);
      SplitUnique(a[1..], x, b[1..], y, mark);
      assert a == [a[0]] + a[1..] && b == [b[0]] + b[1..];
    }
  }

  /** A joined key splits in only one way. */
  lemma JoinInjective(a: string, x: string, b: string, y: string)
    requires '\0' !in a && '\0' !in b
    requires Join(a, x) == Join(b, y)
    ensures a == b && x == y
  {
    assert Join(a, x) == a + (['\0'] + x) && Join(b, y) == b + (['\0'] + y);
    SplitUnique(a, x, b, y, '\0');
  }

  /** With a NUL inside a component the two orders disagree. */
  lemma JoinOrderNeedsNulFree()
    ensures Less("a", "a\0") && !Less(Join("a", "z"), Join("a\0", "a"))
  {
    assert "a"[1..] == "" && "a\0"[1..] == "\0";
    assert Join("a", "z") == "a\0z" && Join("a\0", "a") == "a\0\0a";
    assert "a\0z"[1..][1..] == "z" && "a\0\0a"[1..][1..] == "\0a";
  }

  // ----- division -----

  lemma MulAtLeast(x: int, y: int)
    requires x >= 1 && y >= 1
    ensures x * y >= y
  {
    assert (x - 1) * y >= 0;
  }

  lemma QuotientUnique(n: int, step: int, quotient: int, remainder: int)
    requires 0 <= remainder < step && n == quotient * step + remainder
    ensures n / step == quotient
  {
    var q := n / step;
    assert n == q * step + n % step;
    if q < quotient {
      MulAtLeast(quotient - q, step);
    } else if quotient < q {
      MulAtLeast(q - quotient, step);
    }
  }

  // ----- decimal digits -----

  predicate IsDigit(c: char) {
    '0' <= c <= '9'
  }

  predicate AllDigits(s: string) {
    forall i :: 0 <= i < |s| ==> IsDigit(s[i])
  }

  function Digit(d: int): (c: char)
    requires 0 <= d < 10
    ensures IsDigit(c) && DigitValue(c) == d
  {
    '0' + d as char
  }

  function DigitValue(c: char): (d: int)
    requires IsDigit(c)
    ensures 0 <= d < 10
  {
    c as int - '0' as int
  }

  function Pow10(width: nat): (power: nat)
    ensures power > 0
  {
    if width == 0 then 1 else 10 * Pow10(width - 1)
  }

  /** The last `width` decimal digits of `n`, zero padded. */
  function Digits(n: nat, width: nat): (s: string)
    ensures |s| == width && AllDigits(s)
  {
    if width == 0 then "" else Digits(n / 10, width - 1) + [Digit(n % 10)]
  }

  function Value(s: string): (n: nat)
    requires AllDigits(s)
  {
    if s == "" then 0 else Value(s[..|s| - 1]) * 10 + DigitValue(s[|s| - 1])
  }

  lemma {:induction false} DigitsValue(n: nat, width: nat)
    requires n < Pow10(width)
    ensures Value(Digits(n, width)) == n
  {
    if width > 0 {
      assert n / 10 < Pow10(width - 1);
      DigitsValue(n / 10, width - 1);
      assert Digits(n, width)[..width - 1] == Digits(n / 10, width - 1);
    }
  }

  lemma Regrouped(a: nat, q: nat, p: nat, rest: nat)
    requires rest < p
    ensures a * (q * p + rest) == q * (a * p) + a * rest && a * rest <= a * p - a
  {
    assert a * (p - 1 - rest) >= 0;
  }

  lemma DivProduct(n: nat, a: nat, p: nat, m: nat, ones: nat, q: nat, rest: nat)
    requires n == a * m + ones && m == q * p + rest && ones < a && rest < p
    ensures n / (a * p) == q
  {
    Regrouped(a, q, p, rest);
    QuotientUnique(n, a * p, q, a * rest + ones);
  }

  lemma DivDiv(n: nat, a: nat, p: nat)
    requires a > 0 && p > 0
    ensures n / a / p == n / (a * p)
  {
    var m := n / a;
    DivProduct(n, a, p, m, n % a, m / p, m % p);
  }

  /** Shortest decimal form. */
  function Decimal(n: nat): string {
    if n < 10 then [Digit(n)] else Decimal(n / 10) + [Digit(n % 10)]
  }

  lemma {:induction false} ValueOfDecimal(n: nat)
    ensures AllDigits(Decimal(n)) && Value(Decimal(n)) == n
  {
    if n < 10 {
      assert Decimal(n)[..0] == "";
    } else {
      ValueOfDecimal(n / 10);
      assert Decimal(n)[..|Decimal(n)| - 1] == Decimal(n / 10);
    }
  }

  lemma BeforeLast(s: string, c: char, k: nat)
    requires 0 < k <= |s|
    ensures (s + [c])[|s + [c]| - 1 - k] == s[|s| - k]
  {
  }

  lemma DecimalShifted(n: nat, k: nat)
    requires n >= 10 && 0 < k < |Decimal(n)|
    ensures k - 1 < |Decimal(n / 10)| && Decimal(n)[|Decimal(n)| - 1 - k] == Decimal(n / 10)[|Decimal(n / 10)| - k]
  {
    var init, last := Decimal(n / 10), Digit(n % 10);
    assert Decimal(n) == init + [last];
    hide Digit, Decimal;
    BeforeLast(init, last, k);
  }

  lemma {:induction false} DecimalDigit(n: nat, k: nat)
    requires k < |Decimal(n)|
    ensures Decimal(n)[|Decimal(n)| - 1 - k] == Digit(n / Pow10(k) % 10)
    decreases n
  {
    hide Digit;
    if k > 0 {
      assert n >= 10;
      DecimalShifted(n, k);
      DecimalDigit(n / 10, k - 1);
      DivDiv(n, 10, Pow10(k - 1));
      hide Decimal;
    }
  }

  /** Digit by digit from the right. */
  lemma DecimalAt(n: nat, k: nat)
    requires k < |Decimal(n)|
    ensures Decimal(n)[|Decimal(n)| - 1 - k] as int == '0' as int + n / Pow10(k) % 10
  {
    DecimalDigit(n, k);
    hide Decimal, Pow10;
  }

  /** As many digits as it takes. */
  lemma {:induction false} DecimalLength(n: nat)
    ensures n < Pow10(|Decimal(n)|) && (n > 0 ==> n >= Pow10(|Decimal(n)| - 1)) && (n == 0 ==> |Decimal(n)| == 1)
  {
    if n >= 10 { DecimalLength(n / 10); }
  }

  // ----- trailing zeros -----

  function TrimZeros(s: string): (trimmed: string)
    ensures |trimmed| <= |s| && (AllDigits(s) ==> AllDigits(trimmed))
  {
    if s != "" && s[|s| - 1] == '0' then TrimZeros(s[..|s| - 1]) else s
  }

  function PadZeros(s: string, width: nat): (padded: string)
    requires |s| <= width
    ensures |padded| == width && (AllDigits(s) ==> AllDigits(padded))
  {
    s + seq(width - |s|, i => '0')
  }

  lemma {:induction false} PadTrimmed(s: string)
    ensures PadZeros(TrimZeros(s), |s|) == s
  {
    if s != "" && s[|s| - 1] == '0' {
      var init := s[..|s| - 1];
      PadTrimmed(init);
      assert PadZeros(TrimZeros(init), |s|) == PadZeros(TrimZeros(init), |init|) + "0";
    }
  }

  // ----- hexadecimal -----

  type Byte = b: int | 0 <= b < 256

  /** A SHA-256 digest. */
  type Digest = d: seq<Byte> | |d| == 32 witness seq(32, i => 0)

  predicate IsLowerHex(c: char) {
    '0' <= c <= '9' || 'a' <= c <= 'f'
  }

  function HexDigit(d: int): (c: char)
    requires 0 <= d < 16
    ensures IsLowerHex(c)
  {
    if d < 10 then '0' + d as char else 'a' + (d - 10) as char
  }

  /** `hex.EncodeToString`. */
  function Hex(bytes: seq<Byte>): (s: string)
    ensures |s| == 2 * |bytes| && forall c :: c in s ==> IsLowerHex(c)
  {
    if bytes == [] then ""
    else [HexDigit(bytes[0] / 16), HexDigit(bytes[0] % 16)] + Hex(bytes[1..])
  }

  lemma {:induction false} HexInjective(a: seq<Byte>, b: seq<Byte>)
    requires Hex(a) == Hex(b)
    ensures a == b
  {
    assert |a| == |b|;
    if a != [] {
      assert Hex(a)[0] == Hex(b)[0] && Hex(a)[1] == Hex(b)[1];
      assert Hex(a)[2..] == Hex(a[1..]) && Hex(b)[2..] == Hex(b[1..]);
      HexInjective(a[1..], b[1..]);
      assert a == [a[0]] + a[1..] && b == [b[0]] + b[1..];
    }
  }

  const HEX_DIGITS := "0123456789abcdef"

  /** Byte by byte, the high half first. */
  lemma {:induction false} HexAt(bytes: seq<Byte>, i: nat)
    requires i < |bytes|
    ensures Hex(bytes)[2 * i] == HEX_DIGITS[bytes[i] / 16] && Hex(bytes)[2 * i + 1] == HEX_DIGITS[bytes[i] % 16]
  {
    HexDigitIs(bytes[0] / 16);
    HexDigitIs(bytes[0] % 16);
    assert Hex(bytes)[2..] == Hex(bytes[1..]);
    if i > 0 {
      HexAt(bytes[1..], i - 1);
      assert Hex(bytes)[2 * i] == Hex(bytes)[2..][2 * (i - 1)] && Hex(bytes)[2 * i + 1] == Hex(bytes)[2..][2 * (i - 1) + 1];
    }
  }

  lemma HexDigitIs(d: int)
    requires 0 <= d < 16
    ensures HexDigit(d) == HEX_DIGITS[d]
  {
    assert HEX_DIGITS[..10] == "0123456789" && HEX_DIGITS[10..] == "abcdef";
  }
}
