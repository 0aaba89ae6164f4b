/**
 * The few Python string operations the configuration builder relies on:
 * `str.strip()` and `str.strip(chars)`, the substring test `sub in s`, and
 * the decimal rendering of a positive integer used in an f-string.
 */
module Text {

  /** The characters for which Python's `str.isspace()` holds; `str.strip()` removes these. */
  const Whitespace: set<char> := {
    '\t', '\n', '\U{0B}', '\U{0C}', '\r', '\U{1C}', '\U{1D}', '\U{1E}', '\U{1F}', ' ',
    '\U{85}', '\U{A0}', '\U{1680}',
    '\U{2000}', '\U{2001}', '\U{2002}', '\U{2003}', '\U{2004}', '\U{2005}', '\U{2006}',
    '\U{2007}', '\U{2008}', '\U{2009}', '\U{200A}',
    '\U{2028}', '\U{2029}', '\U{202F}', '\U{205F}', '\U{3000}'
  }

  /** How many characters at the start of `s` belong to `cs`. */
  function LeadingCount(s: string, cs: set<char>): (n: nat)
    ensures n <= |s|
  {
    if |s| > 0 && s[0] in cs then 1 + LeadingCount(s[1..], cs) else 0
  }

  /** `LeadingCount` counts the longest run of characters of `cs` at the start. */
  lemma {:induction false} LeadingCountSpec(s: string, cs: set<char>)
    ensures forall k :: 0 <= k < LeadingCount(s, cs) ==> s[k] in cs
    ensures LeadingCount(s, cs) == |s| || s[LeadingCount(s, cs)] !in cs
  {
    if |s| > 0 && s[0] in cs {
      LeadingCountSpec(s[1..], cs);
    }
  }

  /** How many characters at the end of `s` belong to `cs`. */
  function TrailingCount(s: string, cs: set<char>): (n: nat)
    ensures n <= |s|
  {
    if |s| > 0 && s[|s| - 1] in cs then 1 + TrailingCount(s[..|s| - 1], cs) else 0
  }

  /** `TrailingCount` counts the longest run of characters of `cs` at the end. */
  lemma {:induction false} TrailingCountSpec(s: string, cs: set<char>)
    ensures forall k :: |s| - TrailingCount(s, cs) <= k < |s| ==> s[k] in cs
    ensures TrailingCount(s, cs) == |s| || s[|s| - TrailingCount(s, cs) - 1] !in cs
  {
    if |s| > 0 && s[|s| - 1] in cs {
      TrailingCountSpec(s[..|s| - 1], cs);
    }
  }

  /**
   * Python's `s.strip(chars)`: the middle part of `s` left after cutting off
   * the longest run of characters of `cs` at the start and then at the end.
   */
  function StripChars(s: string, cs: set<char>): (r: string)
    ensures |r| <= |s|
  {
    var i := LeadingCount(s, cs);
    var j := TrailingCount(s[i..], cs);
    s[i..|s| - j]
  }

  /**
   * What `strip` keeps and drops: the result is the part of `s` that starts
   * after the leading run of characters of `cs`; everything after it belongs
   * to `cs`; and it neither starts nor ends with a character of `cs`.
   */
  lemma StripCharsSpec(s: string, cs: set<char>)
    ensures LeadingCount(s, cs) + |StripChars(s, cs)| <= |s|
    ensures StripChars(s, cs) == s[LeadingCount(s, cs)..LeadingCount(s, cs) + |StripChars(s, cs)|]
    ensures forall k :: 0 <= k < LeadingCount(s, cs) ==> s[k] in cs
    ensures forall k :: LeadingCount(s, cs) + |StripChars(s, cs)| <= k < |s| ==> s[k] in cs
    ensures StripChars(s, cs) == [] || (StripChars(s, cs)[0] !in cs && StripChars(s, cs)[|StripChars(s, cs)| - 1] !in cs)
  {
    var i := LeadingCount(s, cs);
    LeadingCountSpec(s, cs);
    TrailingCountSpec(s[i..], cs);
  }

  /** Python's `s.strip()`. */
  function Strip(s: string): string
  {
    StripChars(s, Whitespace)
  }

  /**
   * The text of a percentage cell as the configuration builder prepares it:
   * `cell.strip('%').strip()`. The percent signs are removed first, so a
   * `%` that has whitespace outside it stays in the text.
   */
  function PercentText(cell: string): string
  {
    Strip(StripChars(cell, {'%'}))
  }

  /** Stripping twice removes nothing more than stripping once. */
  lemma {:induction false} StripCharsIdempotent(s: string, cs: set<char>)
    ensures StripChars(StripChars(s, cs), cs) == StripChars(s, cs)
  {
    var r := StripChars(s, cs);
    StripCharsSpec(s, cs);
    if r != [] {
      assert LeadingCount(r, cs) == 0;
      assert TrailingCount(r, cs) == 0;
    }
  }

  /** A text that neither starts nor ends with a character of `cs` is left as it is. */
  lemma StripCharsUnchanged(s: string, cs: set<char>)
    requires s == [] || (s[0] !in cs && s[|s| - 1] !in cs)
    ensures StripChars(s, cs) == s
  {
    assert LeadingCount(s, cs) == 0;
    assert s[0..] == s;
  }

  /** A stripped text that is empty came from a text made only of characters of `cs`. */
  lemma {:induction false} StripCharsEmpty(s: string, cs: set<char>)
    ensures StripChars(s, cs) == [] <==> forall k :: 0 <= k < |s| ==> s[k] in cs
  {
    var r := StripChars(s, cs);
    var i := LeadingCount(s, cs);
    StripCharsSpec(s, cs);
    LeadingCountSpec(s, cs);
    if r != [] {
      assert r[0] == s[i];
    }
  }

  /** Python's `sub in s` on strings: `sub` occurs as a contiguous part of `s`. */
  predicate Contains(s: string, sub: string)
  {
    exists i | 0 <= i <= |s| - |sub| :: OccursAt(s, sub, i)
  }

  /** `sub` occurs in `s` starting at index `i`. */
  predicate OccursAt(s: string, sub: string, i: nat)
  {
    i + |sub| <= |s| && s[i..i + |sub|] == sub
  }

  /** The ASCII digit for `d`. */
  function DigitChar(d: nat): (c: char)
    requires d < 10
    ensures '0' <= c <= '9'
  {
    ((('0' as int) + d) as char)
  }

  /** The decimal text of `n`, as Python's `str(n)` writes a non-negative integer. */
  function NatToString(n: nat): (s: string)
    ensures |s| >= 1
    ensures |s| == 1 <==> n < 10
    ensures forall k :: 0 <= k < |s| ==> '0' <= s[k] <= '9'
  {
    if n < 10 then [DigitChar(n)] else NatToString(n / 10) + [DigitChar(n % 10)]
  }

  /** Distinct numbers have distinct decimal texts. */
  lemma {:induction false} NatToStringInjective(n: nat, m: nat)
    requires NatToString(n) == NatToString(m)
    ensures n == m
  {
    var s := NatToString(n);
    if n < 10 {
      assert m < 10;
      assert s[0] == DigitChar(n) == DigitChar(m);
    } else {
      assert m >= 10;
      var p, q := NatToString(n / 10), NatToString(m / 10);
      assert s[|s| - 1] == DigitChar(n % 10) == DigitChar(m % 10);
      assert p == s[..|s| - 1] == q;
      NatToStringInjective(n / 10, m / 10);
    }
  }
}
