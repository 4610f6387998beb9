/** The few Python string operations the downloader relies on: `str.lower()`,
    the `in` substring test, `str(n)` for an integer and `int(s)` for a string. */
module Text {
  import opened Basics

  // ---------------------------------------------------------------------------
  // Case and substrings
  // ---------------------------------------------------------------------------

  function LowerChar(c: char): char {
    if 'A' <= c <= 'Z' then (c as int + 32) as char else c
  }

  function UpperChar(c: char): char {
    if 'a' <= c <= 'z' then (c as int - 32) as char else c
  }

  /** `s.lower()`, restricted to the ASCII letters. */
  function Lower(s: string): string {
    seq(|s|, i requires 0 <= i < |s| => LowerChar(s[i]))
  }

  /** `s.upper()`, restricted to the ASCII letters. */
  function Upper(s: string): string {
    seq(|s|, i requires 0 <= i < |s| => UpperChar(s[i]))
  }

  /** `sub` occurs in `s` starting at index `k`. */
  predicate OccursAt(s: string, sub: string, k: int) {
    0 <= k && k + |sub| <= |s| && s[k..k + |sub|] == sub
  }

  /** Python's `sub in s` on strings (the empty string occurs everywhere). */
  predicate Contains(s: string, sub: string) {
    exists k :: 0 <= k <= |s| - |sub| && OccursAt(s, sub, k)
  }

  /** Lower-casing forgets the case a string was written in. */
  lemma LowerForgetsCase(s: string)
    ensures Lower(Lower(s)) == Lower(s)
    ensures Lower(Upper(s)) == Lower(s)
  {
    assert forall i :: 0 <= i < |s| ==> Lower(Upper(s))[i] == Lower(s)[i];
  }

  // ---------------------------------------------------------------------------
  // Decimal integers: Python's str(n) and int(s)
  // ---------------------------------------------------------------------------

  predicate IsDigit(c: char) {
    '0' <= c <= '9'
  }

  predicate AllDigits(s: string) {
    forall i :: 0 <= i < |s| ==> IsDigit(s[i])
  }

  function DigitValue(c: char): nat
    requires IsDigit(c)
  {
    c as int - '0' as int
  }

  function DigitChar(d: nat): char
    requires d < 10
  {
    ('0' as int + d) as char
  }

  /** `str(n)` for a natural number: decimal digits without leading zeros. */
  function NatToString(n: nat): string
    decreases n
  {
    if n < 10 then [DigitChar(n)] else NatToString(n / 10) + [DigitChar(n % 10)]
  }

  /** `str(n)` for any integer. */
  function IntToString(n: int): string {
    if n < 0 then "-" + NatToString(-n) else NatToString(n)
  }

  /** The whitespace `int()` strips from both ends of its argument (the ASCII
      and Latin-1 part of Python's notion of white space). */
  predicate IsSpace(c: char) {
    c == ' ' || ('\t' <= c <= '\r') || ('\U{001C}' <= c <= '\U{001F}') || c == '\U{0085}' || c == '\U{00A0}'
  }

  function StripLeft(s: string): string {
    if s != [] && IsSpace(s[0]) then StripLeft(s[1..]) else s
  }

  function StripRight(s: string): string {
    if s != [] && IsSpace(s[|s| - 1]) then StripRight(s[..|s| - 1]) else s
  }

  function Strip(s: string): string {
    StripRight(StripLeft(s))
  }

  /** The digits of a decimal literal with single underscores between digits,
      as Python 3.6+ accepts them in `int()`. */
  predicate DigitGroups(s: string) {
    && |s| > 0
    && IsDigit(s[0])
    && IsDigit(s[|s| - 1])
    && (forall i :: 0 <= i < |s| ==> IsDigit(s[i]) || s[i] == '_')
    && (forall i :: 0 <= i < |s| - 1 ==> s[i] == '_' ==> s[i + 1] != '_')
  }

  /** The value of a run of digits, underscores ignored. */
  function DigitsValue(s: string): nat
    requires forall i :: 0 <= i < |s| ==> IsDigit(s[i]) || s[i] == '_'
  {
    if s == [] then 0
    else
      var v := DigitsValue(s[..|s| - 1]);
      if s[|s| - 1] == '_' then v else 10 * v + DigitValue(s[|s| - 1])
  }

  /** Python's `int(s)` in base 10: surrounding white space, an optional sign,
      then digit groups; anything else raises ValueError (None here). */
  function ParseInt(s: string): Option<int> {
    var t := Strip(s);
    if |t| > 0 && (t[0] == '-' || t[0] == '+') then
      if DigitGroups(t[1..]) then
        Some(if t[0] == '-' then -(DigitsValue(t[1..]) as int) else DigitsValue(t[1..]) as int)
      else None
    else if DigitGroups(t) then Some(DigitsValue(t) as int)
    else None
  }

  /** A natural number written the way `str` writes it: digits, no leading zero. */
  predicate CanonicalNat(d: string) {
    |d| > 0 && AllDigits(d) && (d[0] == '0' ==> |d| == 1)
  }

  /** An integer written the way `str` writes it. */
  predicate Canonical(seg: string) {
    CanonicalNat(seg) || (|seg| > 1 && seg[0] == '-' && CanonicalNat(seg[1..]) && seg[1] != '0')
  }

  lemma {:induction false} NatToStringDigits(n: nat)
    ensures CanonicalNat(NatToString(n))
    ensures DigitsValue(NatToString(n)) == n
    decreases n
  {
    var s := NatToString(n);
    if n >= 10 {
      NatToStringDigits(n / 10);
      assert s[..|s| - 1] == NatToString(n / 10);
    }
  }

  /** A string with no white space at either end is its own strip. */
  lemma StripUnchanged(s: string)
    requires |s| > 0 && !IsSpace(s[0]) && !IsSpace(s[|s| - 1])
    ensures Strip(s) == s
  {
    assert StripLeft(s) == s;
  }

  lemma CanonicalNatGroups(d: string)
    requires CanonicalNat(d)
    ensures DigitGroups(d)
  {
  }

  /** `int(str(n)) == n` for every integer. */
  lemma IntToStringRoundTrip(n: int)
    ensures ParseInt(IntToString(n)) == Some(n)
  {
    var s := IntToString(n);
    var m: nat := if n < 0 then -n else n;
    var d := NatToString(m);
    NatToStringDigits(m);
    CanonicalNatGroups(d);
    assert !IsSpace(d[0]) && !IsSpace(d[|d| - 1]);
    if n < 0 {
      assert s == "-" + d;
      assert s[|s| - 1] == d[|d| - 1];
      StripUnchanged(s);
      assert s[1..] == d;
    } else {
      assert s == d;
      StripUnchanged(s);
    }
  }

  /** Every integer is written canonically by `str`. */
  lemma IntToStringCanonical(n: int)
    ensures Canonical(IntToString(n))
  {
    NatToStringDigits(if n < 0 then -n else n);
    if n < 0 {
      assert IntToString(n)[1..] == NatToString(-n);
    }
  }

  lemma {:induction false} CanonicalNatRoundTrip(d: string)
    requires CanonicalNat(d)
    ensures NatToString(DigitsValue(d)) == d
    decreases |d|
  {
    if |d| > 1 {
      var init, last := d[..|d| - 1], d[|d| - 1];
      assert CanonicalNat(init) by {
        assert init[0] == d[0];
      }
      CanonicalNatRoundTrip(init);
      var v, k := DigitsValue(init), DigitValue(last);
      assert v != 0 by {
        assert init[0] != '0';
        assert NatToString(0) == "0";
      }
      assert DigitsValue(d) == 10 * v + k;
      assert (10 * v + k) / 10 == v && (10 * v + k) % 10 == k;
      assert NatToString(10 * v + k) == NatToString(v) + [DigitChar(k)];
      assert DigitChar(k) == last;
      assert d == init + [last];
    }
  }

  /** A canonical integer segment survives `str(int(seg))` unchanged. */
  lemma CanonicalRoundTrip(seg: string)
    requires Canonical(seg)
    ensures ParseInt(seg).Some? && IntToString(ParseInt(seg).value) == seg
  {
    assert StripLeft(seg) == seg;
    assert StripRight(seg) == seg;
    if CanonicalNat(seg) {
      CanonicalNatRoundTrip(seg);
    } else {
      var d := seg[1..];
      CanonicalNatRoundTrip(d);
      assert NatToString(0) == "0";
      assert DigitsValue(d) != 0;
      assert seg == "-" + d;
    }
  }

  /** What `str` writes never contains a slash. */
  lemma IntToStringHasNoSlash(n: int)
    ensures '/' !in IntToString(n)
  {
    NatToStringDigits(if n < 0 then -n else n);
  }
}
