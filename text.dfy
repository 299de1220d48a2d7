/**
 * The .NET string primitives the core relies on: `char.IsWhiteSpace`,
 * `string.IsNullOrWhiteSpace`, `string.Trim`, `StartsWith(.., OrdinalIgnoreCase)`,
 * `IndexOf(char)` and `int.ToString()`.
 */
module Text {
  import opened Wrappers

  /** `char.IsWhiteSpace`: the Unicode separators Zs, Zl, Zp plus U+0009..U+000D, U+0085 and U+00A0. */
  predicate IsWhiteSpace(c: char)
    ensures c == ' ' || c == '\t' || c == '\n' || c == '\r' ==> IsWhiteSpace(c)
    ensures '!' <= c <= '~' ==> !IsWhiteSpace(c)
  {
    || ('\U{9}' <= c <= '\U{D}')
    || c == ' ' || c == '\U{85}' || c == '\U{A0}' || c == '\U{1680}'
    || ('\U{2000}' <= c <= '\U{200A}')
    || c == '\U{2028}' || c == '\U{2029}' || c == '\U{202F}' || c == '\U{205F}' || c == '\U{3000}'
  }

  predicate AllWhiteSpace(s: string) {
    forall i | 0 <= i < |s| :: IsWhiteSpace(s[i])
  }

  /** `string.IsNullOrWhiteSpace` on a possibly-null string (`None` is null). */
  predicate IsNullOrWhiteSpace(s: Option<string>)
    ensures IsNullOrWhiteSpace(s) <==> s.None? || Trim(s.value) == []
  {
    if s.None? then true else TrimBlank(s.value); AllWhiteSpace(s.value)
  }

  /** How many white-space characters `s` starts with. */
  function LeadingWhiteSpace(s: string): (n: nat)
    ensures n <= |s| && AllWhiteSpace(s[..n])
    ensures n < |s| ==> !IsWhiteSpace(s[n])
  {
    if s == [] || !IsWhiteSpace(s[0]) then 0
    else
      var n := 1 + LeadingWhiteSpace(s[1..]);
      assert forall k | 1 <= k < n :: s[..n][k] == s[1..][..n - 1][k - 1];
      n
  }

  /** Where the text of `s` ends: everything from there on is white space. */
  function EndOfText(s: string): (m: nat)
    ensures m <= |s| && AllWhiteSpace(s[m..])
    ensures m > 0 ==> !IsWhiteSpace(s[m - 1])
  {
    if s == [] || !IsWhiteSpace(s[|s| - 1]) then |s|
    else
      var m := EndOfText(s[..|s| - 1]);
      assert s[m..] == s[..|s| - 1][m..] + [s[|s| - 1]];
      m
  }

  /** `Trim()`: the longest infix of `s` that neither starts nor ends with white space. */
  function Trim(s: string): (r: string)
    ensures exists i | 0 <= i <= |s| - |r| :: r == s[i..i + |r|] && AllWhiteSpace(s[..i]) && AllWhiteSpace(s[i + |r|..])
    ensures r != [] ==> !IsWhiteSpace(r[0]) && !IsWhiteSpace(r[|r| - 1])
  {
    var n := LeadingWhiteSpace(s);
    if n == |s| then
      assert [] == s[n..n] && AllWhiteSpace(s[..n]) && AllWhiteSpace(s[n..]);
      []
    else
      var m := EndOfText(s);
      assert n < m;
      var r := s[n..m];
      assert r == s[n..n + |r|] && AllWhiteSpace(s[..n]) && AllWhiteSpace(s[n + |r|..]);
      assert r[0] == s[n] && r[|r| - 1] == s[m - 1];
      r
  }

  /** What is left after trimming is white space only exactly when it is empty, which happens exactly when `s` is all white space. */
  lemma {:induction false} TrimBlank(s: string)
    ensures AllWhiteSpace(Trim(s)) <==> Trim(s) == []
    ensures Trim(s) == [] <==> AllWhiteSpace(s)
  {
    var n := LeadingWhiteSpace(s);
    if n == |s| {
      assert s[..n] == s;
    } else {
      assert Trim(s) != [] && Trim(s)[0] == s[n];
    }
  }

  /** `char.ToUpperInvariant` restricted to ASCII letters. */
  function AsciiUpper(c: char): (u: char)
    ensures ('a' <= c <= 'z') ==> u as int == c as int - 32
    ensures !('a' <= c <= 'z') ==> u == c
  {
    if 'a' <= c <= 'z' then (c as int - 32) as char else c
  }

  /** `s.StartsWith(prefix, StringComparison.OrdinalIgnoreCase)`. */
  predicate StartsWithIgnoreCase(s: string, prefix: string)
    ensures prefix <= s ==> StartsWithIgnoreCase(s, prefix)
    ensures StartsWithIgnoreCase(s, prefix) <==> |prefix| <= |s| && forall i | 0 <= i < |prefix| ::
      || s[i] == prefix[i]
      || ('a' <= s[i] <= 'z' && s[i] as int - 32 == prefix[i] as int)
      || ('a' <= prefix[i] <= 'z' && prefix[i] as int - 32 == s[i] as int)
  {
    |prefix| <= |s| && forall i | 0 <= i < |prefix| :: AsciiUpper(s[i]) == AsciiUpper(prefix[i])
  }

  /** `s.IndexOf(c)`: the first position of `c`, or -1. */
  function IndexOf(s: string, c: char): (r: int)
    ensures -1 <= r < |s|
    ensures r == -1 <==> c !in s
    ensures r >= 0 ==> s[r] == c && c !in s[..r]
  {
    if s == [] then -1
    else if s[0] == c then 0
    else
      var k := IndexOf(s[1..], c);
      if k == -1 then -1
      else
        assert s[..k + 1] == [s[0]] + s[1..][..k];
        k + 1
  }

  function DigitChar(d: int): (c: char)
    requires 0 <= d < 10
    ensures '0' <= c <= '9' && c as int - '0' as int == d
  {
    ('0' as int + d) as char
  }

  /** The number a string of decimal digits denotes, read most significant digit first. */
  function NumeralValue(s: string): int {
    if s == [] then 0 else NumeralValue(s[..|s| - 1]) * 10 + (s[|s| - 1] as int - '0' as int)
  }

  /** The decimal digits of a natural number, without leading zeros. */
  function Digits(n: nat): (r: string)
    ensures |r| >= 1 && (n < 10 <==> |r| == 1)
    ensures forall i | 0 <= i < |r| :: '0' <= r[i] <= '9'
    ensures NumeralValue(r) == n
    ensures n > 0 ==> r[0] != '0'
  {
    if n < 10 then
      assert [DigitChar(n)][..0] == [];
      [DigitChar(n)]
    else
      var d := Digits(n / 10);
      var r := d + [DigitChar(n % 10)];
      assert r[..|r| - 1] == d;
      r
  }

  /** `int.ToString()`: the decimal form, with a leading '-' for negative numbers. */
  function Decimal(n: int): (r: string)
    ensures r != [] && (r[0] == '-' <==> n < 0)
    ensures n >= 0 ==> NumeralValue(r) == n
    ensures n < 0 ==> |r| >= 2 && NumeralValue(r[1..]) == -n
    ensures forall i | (if n < 0 then 1 else 0) <= i < |r| :: '0' <= r[i] <= '9'
    ensures var k := if n < 0 then 1 else 0; |r| > k + 1 ==> r[k] != '0'
  {
    if n < 0 then
      var r := "-" + Digits(-n);
      assert r[1..] == Digits(-n);
      r
    else Digits(n)
  }

  /**
   * The length .NET and SQL Server measure a string in: UTF-16 code units, so
   * a character outside the Basic Multilingual Plane counts twice.
   */
  function Utf16Length(s: string): (n: nat)
    ensures |s| <= n <= 2 * |s|
    ensures (forall i | 0 <= i < |s| :: s[i] as int < 0x1_0000) ==> n == |s|
  {
    if s == [] then 0
    else Utf16Length(s[..|s| - 1]) + (if s[|s| - 1] as int < 0x1_0000 then 1 else 2)
  }

  lemma {:induction false} DigitsInjective(a: nat, b: nat)
    requires Digits(a) == Digits(b)
    ensures a == b
  {
    var da, db := Digits(a), Digits(b);
    if a >= 10 && b >= 10 {
      assert da[..|da| - 1] == Digits(a / 10) && db[..|db| - 1] == Digits(b / 10);
      DigitsInjective(a / 10, b / 10);
      assert da[|da| - 1] == DigitChar(a % 10) && db[|db| - 1] == DigitChar(b % 10);
    } else {
      assert a < 10 && b < 10;
      assert da[0] == DigitChar(a) && db[0] == DigitChar(b);
    }
  }

  /** Distinct ids have distinct decimal forms, so the text identifies the id. */
  lemma DecimalInjective(a: int, b: int)
    requires Decimal(a) == Decimal(b)
    ensures a == b
  {
    var da, db := Decimal(a), Decimal(b);
    if a < 0 {
      assert db[0] == '-';
      assert da[1..] == Digits(-a) && db[1..] == Digits(-b);
      DigitsInjective(-a, -b);
    } else {
      assert b >= 0;
      DigitsInjective(a, b);
    }
  }
}
