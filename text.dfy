/** The few operations on Python `str` values that the page relies on:
    `strip`, `rstrip`, `lower`, the `in` substring test and the decimal
    rendering of an `int` in an f-string. Only the ASCII part of Python's
    Unicode semantics is modelled. */
module Text {

  /** The ASCII characters for which Python's `str.isspace` holds, which are
      the ones `str.strip()` removes: tab, line feed, vertical tab, form feed,
      carriage return, the four information separators 0x1C-0x1F and space. */
  const Whitespace: set<char> :=
    {'\t', '\n', '\U{0B}', '\U{0C}', '\r', '\U{1C}', '\U{1D}', '\U{1E}', '\U{1F}', ' '}

  /** `s.lstrip(cs)`: drops the longest prefix made only of characters in `cs`. */
  function LStrip(s: string, cs: set<char>): (r: string)
    ensures |r| <= |s| && r == s[|s| - |r|..]
    ensures forall i | 0 <= i < |s| - |r| :: s[i] in cs
    ensures r == [] || r[0] !in cs
  {
    if s != [] && s[0] in cs then LStrip(s[1..], cs) else s
  }

  /** `s.rstrip(cs)`: drops the longest suffix made only of characters in `cs`. */
  function RStrip(s: string, cs: set<char>): (r: string)
    ensures |r| <= |s| && r == s[..|r|]
    ensures forall i | |r| <= i < |s| :: s[i] in cs
    ensures r == [] || r[|r| - 1] !in cs
  {
    if s != [] && s[|s| - 1] in cs then RStrip(s[..|s| - 1], cs) else s
  }

  /** `s.strip()`: surrounding whitespace removed; the result neither starts
      nor ends with whitespace (StripPlaced says where it sits in `s`). */
  function Strip(s: string): (r: string)
    ensures |r| <= |s|
    ensures r == [] || (r[0] !in Whitespace && r[|r| - 1] !in Whitespace)
  {
    RStrip(LStrip(s, Whitespace), Whitespace)
  }

  /** Every character of `s` is in `cs`. */
  predicate AllIn(s: string, cs: set<char>) {
    forall i | 0 <= i < |s| :: s[i] in cs
  }

  /** The stripped text occurs in `s` with only whitespace before and after it. */
  lemma StripPlaced(s: string)
    ensures exists a | 0 <= a <= |s| ::
      OccursAt(s, Strip(s), a) && AllIn(s[..a], Whitespace) && AllIn(s[a + |Strip(s)|..], Whitespace)
  {
    var left := LStrip(s, Whitespace);
    var r := RStrip(left, Whitespace);
    var a := |s| - |left|;
    assert s[a..] == left;
    assert OccursAt(s, r, a) by { assert s[a..a + |r|] == left[..|r|]; }
    assert AllIn(s[..a], Whitespace);
    assert AllIn(s[a + |r|..], Whitespace) by {
      assert s[a + |r|..] == left[|r|..];
      forall i | 0 <= i < |left| - |r| ensures left[|r|..][i] in Whitespace {
        assert left[|r|..][i] == left[|r| + i];
      }
    }
  }

  /** Python's `str.lower` on one character, ASCII letters only: `A`-`Z` map
      to `a`-`z`, every other character is kept. */
  function LowerChar(c: char): (r: char)
    ensures !('A' <= r <= 'Z')
    ensures 'A' <= c <= 'Z' ==> 'a' <= r <= 'z' && r as int - 'a' as int == c as int - 'A' as int
    ensures !('A' <= c <= 'Z') ==> r == c
  {
    if 'A' <= c <= 'Z' then (c as int + 32) as char else c
  }

  /** `s.lower()`, character by character (LowerChar says what each
      character becomes). */
  function Lower(s: string): string {
    seq(|s|, i requires 0 <= i < |s| => LowerChar(s[i]))
  }

  /** The lower-cased text has the same length, holds no upper-case ASCII
      letter, and keeps every character that is not one. */
  lemma LowerCases(s: string)
    ensures |Lower(s)| == |s|
    ensures forall i | 0 <= i < |s| :: !('A' <= Lower(s)[i] <= 'Z')
    ensures forall i | 0 <= i < |s| :: !('A' <= s[i] <= 'Z') ==> Lower(s)[i] == s[i]
  {
  }

  lemma LowerAppend(a: string, b: string)
    ensures Lower(a + b) == Lower(a) + Lower(b)
  {
  }

  /** `pat` occurs in `s` starting at index `i`. */
  predicate OccursAt(s: string, pat: string, i: int) {
    0 <= i && i + |pat| <= |s| && s[i..i + |pat|] == pat
  }

  /** Python's `pat in s` on strings: a plain substring test. */
  predicate Contains(s: string, pat: string) {
    exists i | 0 <= i <= |s| :: OccursAt(s, pat, i)
  }

  predicate IsDigit(c: char) {
    '0' <= c <= '9'
  }

  function DigitChar(d: nat): (c: char)
    requires d < 10
    ensures IsDigit(c) && c as int - '0' as int == d
  {
    (d + '0' as int) as char
  }

  function DigitValue(c: char): nat
    requires IsDigit(c)
  {
    c as int - '0' as int
  }

  /** Decimal digits of `n`, most significant first, without leading zeros. */
  function NatToString(n: nat): (r: string)
    ensures r != [] && forall i | 0 <= i < |r| :: IsDigit(r[i])
    ensures r[0] == '0' ==> n == 0 && r == "0"
  {
    if n < 10 then [DigitChar(n)] else NatToString(n / 10) + [DigitChar(n % 10)]
  }

  /** The text `f"{k}"` produces for an `int`: a minus sign for negative
      values, then the decimal digits of the magnitude. */
  function IntToString(k: int): (r: string)
    ensures r != [] && IsDigit(r[|r| - 1])
    ensures forall i | 0 <= i < |r| :: IsDigit(r[i]) || (i == 0 && r[i] == '-')
    ensures r[0] == '-' <==> k < 0
    ensures r[0] == '0' ==> r == "0"
    ensures r[0] == '-' ==> |r| >= 2 && r[1] != '0'
  {
    if k < 0 then
      var m := NatToString(-k);
      assert ("-" + m)[1] == m[0];
      "-" + m
    else
      NatToString(k)
  }

  predicate AllDigits(s: string) {
    forall i | 0 <= i < |s| :: IsDigit(s[i])
  }

  /** Reads a run of decimal digits back as a number. */
  function ParseNat(s: string): nat
    requires AllDigits(s)
  {
    if s == [] then 0 else 10 * ParseNat(s[..|s| - 1]) + DigitValue(s[|s| - 1])
  }

  /** Reads the text of an optionally negative integer literal back. */
  function ParseInt(s: string): int
    requires s != [] && (AllDigits(s) || (s[0] == '-' && AllDigits(s[1..])))
  {
    if s[0] == '-' then -(ParseNat(s[1..]) as int) else ParseNat(s)
  }

  lemma {:induction false} ParseNatToString(n: nat)
    ensures ParseNat(NatToString(n)) == n
  {
    var r := NatToString(n);
    if n >= 10 {
      ParseNatToString(n / 10);
      assert r[..|r| - 1] == NatToString(n / 10);
    }
  }

  /** The rendering of an integer is a literal that reads back as the same integer. */
  lemma ParseIntToString(k: int)
    ensures var r := IntToString(k);
      (AllDigits(r) || (r[0] == '-' && AllDigits(r[1..]))) && ParseInt(r) == k
  {
    var r := IntToString(k);
    if k < 0 {
      assert r[1..] == NatToString(-k);
      ParseNatToString(-k);
    } else {
      ParseNatToString(k);
    }
  }
}
