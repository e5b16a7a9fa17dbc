/** Strings as sequences of characters: ASCII case, trimming, splitting, decimal numerals. */
module Text {
  import opened Common

  function UpperChar(c: char): char {
    if 'a' <= c <= 'z' then (c as int - 32) as char else c
  }

  function LowerChar(c: char): char {
    if 'A' <= c <= 'Z' then (c as int + 32) as char else c
  }

  function Upper(s: string): string {
    seq(|s|, i requires 0 <= i < |s| => UpperChar(s[i]))
  }

  function Lower(s: string): string {
    seq(|s|, i requires 0 <= i < |s| => LowerChar(s[i]))
  }

  /** The Unicode control category: C0, DEL and C1. */
  predicate IsControl(c: char) {
    c as int <= 0x1F || 0x7F <= c as int <= 0x9F
  }

  /** The Unicode White_Space property. */
  predicate IsWhitespace(c: char) {
    var n := c as int;
    || 0x09 <= n <= 0x0D || n == 0x20 || n == 0x85 || n == 0xA0 || n == 0x1680
    || 0x2000 <= n <= 0x200A || n == 0x2028 || n == 0x2029 || n == 0x202F || n == 0x205F || n == 0x3000
  }

  predicate IsDigit(c: char) {
    '0' <= c <= '9'
  }

  function TrimStart(s: string): string {
    if s != [] && IsWhitespace(s[0]) then TrimStart(s[1..]) else s
  }

  function TrimEnd(s: string): string {
    if s != [] && IsWhitespace(s[|s| - 1]) then TrimEnd(s[..|s| - 1]) else s
  }

  function Trim(s: string): string {
    TrimEnd(TrimStart(s))
  }

  /** No white space at either end. */
  predicate Trimmed(s: string) {
    s != [] ==> !IsWhitespace(s[0]) && !IsWhitespace(s[|s| - 1])
  }

  lemma {:induction false} TrimEndKeepsStart(s: string)
    requires s != [] && !IsWhitespace(s[0])
    ensures TrimEnd(s) != [] && TrimEnd(s)[0] == s[0]
    ensures !IsWhitespace(TrimEnd(s)[|TrimEnd(s)| - 1])
  {
    if IsWhitespace(s[|s| - 1]) {
      TrimEndKeepsStart(s[..|s| - 1]);
    }
  }

  lemma {:induction false} TrimIsTrimmed(s: string)
    ensures Trimmed(Trim(s))
    decreases |s|
  {
    if s != [] {
      if IsWhitespace(s[0]) {
        TrimIsTrimmed(s[1..]);
      } else {
        TrimEndKeepsStart(s);
      }
    }
  }

  /** Trimming takes away the white space at both ends, and nothing else. */
  lemma {:induction false} TrimExactlyWhen(s: string, i: nat, j: nat)
    requires i <= j <= |s|
    requires i < j ==> !IsWhitespace(s[i]) && !IsWhitespace(s[j - 1])
    requires forall k | 0 <= k < i || j <= k < |s| :: IsWhitespace(s[k])
    ensures Trim(s) == s[i..j]
    decreases |s|
  {
    if s != "" {
      if i == j {
        TrimExactlyWhen(s[1..], 0, 0);
      } else if i > 0 {
        TrimExactlyWhen(s[1..], i - 1, j - 1);
        assert s[1..][i - 1..j - 1] == s[i..j];
      } else {
        TrimEndStops(s, j);
      }
    }
  }

  lemma {:induction false} TrimEndStops(s: string, j: nat)
    requires 0 < j <= |s| && !IsWhitespace(s[j - 1]) && forall k | j <= k < |s| :: IsWhitespace(s[k])
    ensures TrimEnd(s) == s[..j]
  {
    if j < |s| {
      TrimEndStops(s[..|s| - 1], j);
      assert s[..|s| - 1][..j] == s[..j];
    }
  }

  lemma TrimKeepsCharacters(s: string, c: char)
    ensures c in Trim(s) ==> c in s
  {
    TrimStartKeepsCharacters(s, c);
    TrimEndKeepsCharacters(TrimStart(s), c);
  }

  lemma {:induction false} TrimStartKeepsCharacters(s: string, c: char)
    ensures c in TrimStart(s) ==> c in s
  {
    if s != [] && IsWhitespace(s[0]) {
      TrimStartKeepsCharacters(s[1..], c);
    }
  }

  lemma {:induction false} TrimEndKeepsCharacters(s: string, c: char)
    ensures c in TrimEnd(s) ==> c in s
  {
    if s != [] && IsWhitespace(s[|s| - 1]) {
      TrimEndKeepsCharacters(s[..|s| - 1], c);
    }
  }

  // ---------------------------------------------------------------------------
  // Splitting at a separator character and joining again.

  /** The part of `s` before the first `c`; all of `s` when there is none. */
  function Before(s: string, c: char): (r: string)
    ensures |r| <= |s| && r == s[..|r|] && c !in r
    ensures |r| < |s| ==> s[|r|] == c
  {
    if s == [] || s[0] == c then [] else [s[0]] + Before(s[1..], c)
  }

  function Split(s: string, c: char): (parts: seq<string>)
    ensures parts != []
    decreases |s|
  {
    var head := Before(s, c);
    if |head| == |s| then [s] else [head] + Split(s[|head| + 1..], c)
  }

  function Join(parts: seq<string>, separator: string): string
    requires parts != []
  {
    if |parts| == 1 then parts[0] else parts[0] + separator + Join(parts[1..], separator)
  }

  lemma {:induction false} BeforeUnique(s: string, head: string, c: char)
    requires c !in head && |head| <= |s| && s[..|head|] == head
    requires |head| == |s| || s[|head|] == c
    ensures Before(s, c) == head
  {
    if head != [] {
      assert s[0] == head[0] && head[0] in head;
      assert s[1..][..|head| - 1] == head[1..];
      BeforeUnique(s[1..], head[1..], c);
    }
  }

  lemma {:induction false} BeforePasses(s: string, c: char, at: nat)
    requires at < |s| && c !in s[..at + 1]
    ensures |Before(s, c)| > at
  {
    assert s[0] == s[..at + 1][0];
    if at > 0 {
      assert s[1..][..at] == s[..at + 1][1..];
      BeforePasses(s[1..], c, at - 1);
    }
  }

  lemma AppendInjective(a: string, b: string, end: string)
    ensures a + end == b + end ==> a == b
  {
    if a + end == b + end {
      assert (a + end)[..|a|] == a && (b + end)[..|b|] == b;
    }
  }

  lemma UpperKeepsPlus(s: string)
    ensures '+' in Upper(s) ==> '+' in s
  {
    if '+' in Upper(s) {
      var k :| 0 <= k < |s| && Upper(s)[k] == '+';
      assert s[k] == '+';
    }
  }

  /** Splitting what was joined gives the parts back, when no part holds the separator. */
  lemma {:induction false} SplitJoin(parts: seq<string>, c: char)
    requires parts != [] && forall p | p in parts :: c !in p
    ensures Split(Join(parts, [c]), c) == parts
  {
    var s := Join(parts, [c]);
    if |parts| == 1 {
      BeforeUnique(s, s, c);
    } else {
      BeforeUnique(s, parts[0], c);
      assert s[|parts[0]| + 1..] == Join(parts[1..], [c]);
      SplitJoin(parts[1..], c);
    }
  }

  lemma {:induction false} SplitPartsLackSeparator(s: string, c: char)
    ensures forall p | p in Split(s, c) :: c !in p
    decreases |s|
  {
    var head := Before(s, c);
    if |head| < |s| {
      SplitPartsLackSeparator(s[|head| + 1..], c);
    }
  }

  // ---------------------------------------------------------------------------
  // Decimal numerals.

  function Digit(n: nat): (c: char)
    requires n < 10
    ensures IsDigit(c) && c as int == '0' as int + n
  {
    ('0' as int + n) as char
  }

  function Decimal(n: nat): (s: string)
    ensures s != [] && forall c | c in s :: IsDigit(c)
  {
    if n < 10 then [Digit(n)] else Decimal(n / 10) + [Digit(n % 10)]
  }

  lemma {:induction false} DecimalInjective(m: nat, n: nat)
    requires Decimal(m) == Decimal(n)
    ensures m == n
  {
    var s, t := Decimal(m), Decimal(n);
    assert s[|s| - 1] == t[|t| - 1];
    if m >= 10 && n >= 10 {
      assert s[..|s| - 1] == Decimal(m / 10) && t[..|t| - 1] == Decimal(n / 10);
      DecimalInjective(m / 10, n / 10);
    }
  }

  lemma {:induction false} DecimalLengthMonotone(m: nat, n: nat)
    requires m <= n
    ensures |Decimal(m)| <= |Decimal(n)|
  {
    if n >= 10 && m >= 10 {
      DecimalLengthMonotone(m / 10, n / 10);
    }
  }

  predicate AllDigits(s: string) {
    forall i | 0 <= i < |s| :: IsDigit(s[i])
  }

  /** The value of a run of digits. */
  function Value(s: string): nat
    requires AllDigits(s)
  {
    if s == "" then 0 else Value(s[..|s| - 1]) * 10 + (s[|s| - 1] as int - '0' as int)
  }

  /** The standard unsigned parser: an optional plus sign, then at least one digit, at most `max`. */
  function ParseUnsigned(s: string, max: nat): Option<nat> {
    var digits := if s != "" && s[0] == '+' then s[1..] else s;
    if digits != "" && AllDigits(digits) && Value(digits) <= max then Some(Value(digits)) else None
  }

  function Zeros(n: nat): string {
    seq(n, i requires 0 <= i < n => '0')
  }

  lemma {:induction false} DecimalValue(n: nat)
    ensures AllDigits(Decimal(n)) && Value(Decimal(n)) == n
  {
    var s := Decimal(n);
    forall i | 0 <= i < |s| ensures IsDigit(s[i]) {
      assert s[i] in s;
    }
    if n >= 10 {
      DecimalValue(n / 10);
      assert s[..|s| - 1] == Decimal(n / 10);
    }
  }

  lemma {:induction false} ZerosInFront(n: nat, s: string)
    requires AllDigits(s)
    ensures AllDigits(Zeros(n) + s) && Value(Zeros(n) + s) == Value(s)
    decreases |s|
  {
    var z := Zeros(n) + s;
    if s == "" {
      assert z == Zeros(n);
      ZerosValue(n);
    } else {
      assert z[..|z| - 1] == Zeros(n) + s[..|s| - 1];
      ZerosInFront(n, s[..|s| - 1]);
    }
  }

  lemma {:induction false} ZerosValue(n: nat)
    ensures AllDigits(Zeros(n)) && Value(Zeros(n)) == 0
  {
    if n != 0 {
      assert Zeros(n)[..n - 1] == Zeros(n - 1);
      ZerosValue(n - 1);
    }
  }

  function LeadingZeros(s: string): (n: nat)
    ensures n <= |s|
  {
    if s != "" && s[0] == '0' then 1 + LeadingZeros(s[1..]) else 0
  }

  lemma {:induction false} ZeroIsZeros(s: string)
    requires AllDigits(s) && Value(s) == 0
    ensures s == Zeros(|s|)
  {
    if s != "" {
      ZeroIsZeros(s[..|s| - 1]);
      assert s == s[..|s| - 1] + [s[|s| - 1]];
    }
  }

  lemma {:induction false} LeadingZerosOf(n: nat, s: string)
    requires s != "" && s[0] != '0'
    ensures LeadingZeros(Zeros(n) + s) == n
  {
    if n == 0 {
      assert Zeros(0) + s == s;
    } else {
      LeadingZerosOf(n - 1, s);
      assert (Zeros(n) + s)[1..] == Zeros(n - 1) + s;
    }
  }

  lemma {:induction false} DecimalStart(n: nat)
    requires n > 0
    ensures Decimal(n)[0] != '0'
  {
    if n >= 10 { DecimalStart(n / 10); }
  }

  lemma {:induction false} DigitsAreZerosAndDecimal(s: string)
    requires AllDigits(s) && Value(s) > 0
    ensures exists n: nat :: s == Zeros(n) + Decimal(Value(s))
  {
    var front := s[..|s| - 1];
    var last := s[|s| - 1];
    LastDigit(s);
    hide Decimal, Value, Zeros, Digit;
    assert s == front + [last];
    DecimalStep(Value(front), last as int - '0' as int);
    if Value(front) == 0 {
      ZeroIsZeros(front);
      assert s == Zeros(|front|) + [last];
    } else {
      DigitsAreZerosAndDecimal(front);
      var n :| front == Zeros(n) + Decimal(Value(front));
      assert s == Zeros(n) + (Decimal(Value(front)) + [last]);
    }
  }

  lemma DecimalStep(v: nat, d: nat)
    requires d < 10 && v + d > 0
    ensures Decimal(v * 10 + d) == (if v == 0 then [] else Decimal(v)) + [Digit(d)]
  {
    var n := v * 10 + d;
    assert n / 10 == v && n % 10 == d;
    hide Digit;
    assert v == 0 ==> [] + [Digit(d)] == [Digit(d)];
  }

  lemma LastDigit(s: string)
    requires AllDigits(s) && s != ""
    ensures var d := s[|s| - 1] as int - '0' as int;
            0 <= d < 10 && Digit(d) == s[|s| - 1] && Value(s) == Value(s[..|s| - 1]) * 10 + d
  {
    assert IsDigit(s[|s| - 1]);
  }

  /** Digits are their leading zeros and the decimal numeral of their value. */
  lemma LeadingZerosAndValue(s: string)
    requires AllDigits(s) && Value(s) > 0
    ensures s == Zeros(LeadingZeros(s)) + Decimal(Value(s))
  {
    DigitsAreZerosAndDecimal(s);
    var n :| s == Zeros(n) + Decimal(Value(s));
    DecimalStart(Value(s));
    LeadingZerosOf(n, Decimal(Value(s)));
  }
}
