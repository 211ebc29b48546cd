/**
 * The few pieces of Python string rendering that the status pages rely on:
 * `str(n)` for a natural number (used by f-strings), ASCII `str.title()`,
 * and a substring relation used to state what a rendered text contains.
 */
module Text {

  /** `t` occurs somewhere inside `s` (Python's `t in s` on strings). */
  ghost predicate Contains(s: string, t: string)
  {
    exists i :: 0 <= i <= |s| && t <= s[i..]
  }

  lemma ContainsAt(s: string, t: string, i: nat)
    requires i <= |s| && t <= s[i..]
    ensures Contains(s, t)
  {
  }

  /** Whatever surrounds `t`, the whole contains it. */
  lemma ContainsInfix(a: string, t: string, b: string)
    ensures Contains(a + t + b, t)
  {
    assert (a + t + b)[|a|..] == t + b;
    ContainsAt(a + t + b, t, |a|);
  }

  // ---------------------------------------------------------------------------
  // str(n) for n >= 0

  predicate IsDigit(c: char)
  {
    '0' <= c <= '9'
  }

  function Digit(d: nat): (c: char)
    requires d < 10
    ensures IsDigit(c) && c as int - '0' as int == d
  {
    ('0' as int + d) as char
  }

  /** Python's `str(n)`: the decimal digits of `n`, most significant first, no leading zero. */
  function Decimal(n: nat): (s: string)
    ensures |s| >= 1
    ensures forall i :: 0 <= i < |s| ==> IsDigit(s[i])
    ensures |s| > 1 ==> s[0] != '0'
    decreases n
  {
    if n < 10 then [Digit(n)] else Decimal(n / 10) + [Digit(n % 10)]
  }

  /** Reads a string of decimal digits back as a number (Python's `int(s)` on digit strings). */
  function DecimalValue(s: string): nat
    requires forall i :: 0 <= i < |s| ==> IsDigit(s[i])
  {
    if s == [] then 0
    else DecimalValue(s[..|s| - 1]) * 10 + DigitValue(s[|s| - 1])
  }

  function DigitValue(c: char): (d: nat)
    requires IsDigit(c)
    ensures d < 10
  {
    c as int - '0' as int
  }

  /** `str` loses nothing: reading the digits back gives the number. */
  lemma {:induction false} DecimalRoundTrip(n: nat)
    ensures DecimalValue(Decimal(n)) == n
    decreases n
  {
    if n >= 10 {
      var s := Decimal(n);
      assert s[..|s| - 1] == Decimal(n / 10);
      DecimalRoundTrip(n / 10);
    }
  }

  /** A one-digit number renders as that single digit. */
  lemma SingleDigit(n: nat)
    requires n < 10
    ensures Decimal(n) == [('0' as int + n) as char]
  {
  }

  // ---------------------------------------------------------------------------
  // str.title() on ASCII text

  predicate IsUpper(c: char) { 'A' <= c <= 'Z' }
  predicate IsLower(c: char) { 'a' <= c <= 'z' }

  /** A cased character, in Python's sense, restricted to ASCII letters. */
  predicate IsCased(c: char) { IsUpper(c) || IsLower(c) }

  function ToUpper(c: char): (u: char)
    ensures IsCased(u) == IsCased(c)
    ensures !IsLower(u)
    ensures !IsCased(c) ==> u == c
  {
    if IsLower(c) then (c as int - 32) as char else c
  }

  function ToLower(c: char): (l: char)
    ensures IsCased(l) == IsCased(c)
    ensures !IsUpper(l)
    ensures !IsCased(c) ==> l == c
  {
    if IsUpper(c) then (c as int + 32) as char else c
  }

  /**
   * `str.title()` as CPython runs it: a character is lower-cased when the one
   * before it was cased, and title-cased (here: upper-cased) otherwise.
   */
  function TitleFrom(s: string, previousCased: bool): (r: string)
    ensures |r| == |s|
  {
    if s == [] then []
    else
      var c := if previousCased then ToLower(s[0]) else ToUpper(s[0]);
      [c] + TitleFrom(s[1..], IsCased(s[0]))
  }

  function Title(s: string): (r: string)
    ensures |r| == |s|
  {
    TitleFrom(s, false)
  }

  /** Title-casing changes no character's casedness, only its case. */
  lemma {:induction false} TitleFromKeepsCased(s: string, b: bool, i: nat)
    requires i < |s|
    ensures IsCased(TitleFrom(s, b)[i]) == IsCased(s[i])
    decreases |s|
  {
    if i > 0 {
      TitleFromKeepsCased(s[1..], IsCased(s[0]), i - 1);
    }
  }

  lemma {:induction false} TitleFromIdempotent(s: string, b: bool)
    ensures TitleFrom(TitleFrom(s, b), b) == TitleFrom(s, b)
    decreases |s|
  {
    if s != [] {
      var t := TitleFrom(s, b);
      TitleFromKeepsCased(s, b, 0);
      assert t[1..] == TitleFrom(s[1..], IsCased(s[0]));
      TitleFromIdempotent(s[1..], IsCased(s[0]));
    }
  }

  /** `s.title().title() == s.title()`. */
  lemma TitleIdempotent(s: string)
    ensures Title(Title(s)) == Title(s)
  {
    TitleFromIdempotent(s, false);
  }
}
