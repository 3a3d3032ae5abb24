/** The handful of Python string operations the application relies on:
    `str.strip()` and `str.strip(chars)`, substring tests, `str(int)`,
    `int(str)`, zero-padded decimal fields as `strftime` writes them, and
    ASCII lower-casing. */
module Text {
  import opened Common

  /** The characters Python's `str.strip()` removes (those `str.isspace`
      accepts). */
  const Whitespace: set<char> := {
    ' ', '\t', '\n', '\U{B}', '\U{C}', '\r', '\U{1C}', '\U{1D}', '\U{1E}', '\U{1F}',
    '\U{85}', '\U{A0}', '\U{1680}', '\U{2000}', '\U{2001}', '\U{2002}', '\U{2003}',
    '\U{2004}', '\U{2005}', '\U{2006}', '\U{2007}', '\U{2008}', '\U{2009}', '\U{200A}',
    '\U{2028}', '\U{2029}', '\U{202F}', '\U{205F}', '\U{3000}'
  }

  // ---------------------------------------------------------------------
  // Trimming: `s.strip()` and `s.strip(chars)`

  /** Drops the leading characters that belong to `cs`. */
  function TrimLeft(s: string, cs: set<char>): (r: string)
    ensures |r| <= |s| && r == s[|s| - |r|..]
    ensures r == [] || r[0] !in cs
  {
    if |s| > 0 && s[0] in cs then TrimLeft(s[1..], cs) else s
  }

  /** Drops the trailing characters that belong to `cs`. */
  function TrimRight(s: string, cs: set<char>): (r: string)
    ensures |r| <= |s| && r == s[..|r|]
    ensures r == [] || r[|r| - 1] !in cs
  {
    if |s| > 0 && s[|s| - 1] in cs then TrimRight(s[..|s| - 1], cs) else s
  }

  /** Python's `s.strip(chars)`: the longest infix of `s` that neither starts
      nor ends with a character of `cs`. */
  function Trim(s: string, cs: set<char>): (r: string)
    ensures |r| <= |s|
    ensures r == [] || (r[0] !in cs && r[|r| - 1] !in cs)
  {
    TrimRight(TrimLeft(s, cs), cs)
  }

  /** Python's `s.strip()`. */
  function Strip(s: string): string {
    Trim(s, Whitespace)
  }

  /** Python's `s or None` for a string: the empty string becomes `None`. */
  function NoneIfEmpty(s: string): Option<string> {
    if s == [] then None else Some(s)
  }

  /** Python's `s.strip(c)` for a single character `c`. */
  function StripChar(s: string, c: char): string {
    Trim(s, {c})
  }

  /** `TrimLeft` removes only characters of `cs`. */
  lemma {:induction false} TrimLeftDrops(s: string, cs: set<char>)
    ensures forall k :: 0 <= k < |s| - |TrimLeft(s, cs)| ==> s[k] in cs
  {
    if |s| > 0 && s[0] in cs {
      TrimLeftDrops(s[1..], cs);
      forall k | 1 <= k < |s| - |TrimLeft(s, cs)| ensures s[k] in cs {
        assert s[k] == s[1..][k - 1];
      }
    }
  }

  /** `TrimRight` removes only characters of `cs`. */
  lemma {:induction false} TrimRightDrops(s: string, cs: set<char>)
    ensures forall k :: |TrimRight(s, cs)| <= k < |s| ==> s[k] in cs
  {
    if |s| > 0 && s[|s| - 1] in cs {
      TrimRightDrops(s[..|s| - 1], cs);
      forall k | |TrimRight(s, cs)| <= k < |s| - 1 ensures s[k] in cs {
        assert s[k] == s[..|s| - 1][k];
      }
    }
  }

  /** Where the slice `Trim` keeps starts in `s`. */
  function TrimStart(s: string, cs: set<char>): nat {
    |s| - |TrimLeft(s, cs)|
  }

  /** `Trim` keeps a contiguous slice of `s`. */
  lemma TrimIsInfix(s: string, cs: set<char>)
    ensures TrimStart(s, cs) + |Trim(s, cs)| <= |s|
    ensures Trim(s, cs) == s[TrimStart(s, cs)..TrimStart(s, cs) + |Trim(s, cs)|]
  {
    var l := TrimLeft(s, cs);
    PrefixOfSuffix(s, TrimStart(s, cs), l, TrimRight(l, cs));
  }

  lemma PrefixOfSuffix(s: string, i: nat, l: string, r: string)
    requires i <= |s| && l == s[i..] && |r| <= |l| && r == l[..|r|]
    ensures r == s[i..i + |r|]
  {
  }

  /** Trimming leaves nothing exactly when every character of `s` is in
      `cs`. */
  lemma TrimEmptyIff(s: string, cs: set<char>)
    ensures Trim(s, cs) == [] <==> forall k :: 0 <= k < |s| ==> s[k] in cs
  {
    var l := TrimLeft(s, cs);
    TrimLeftDrops(s, cs);
    TrimRightDrops(l, cs);
  }

  /** A string without trimmable ends is left unchanged. */
  lemma TrimFixed(s: string, cs: set<char>)
    requires s == [] || (s[0] !in cs && s[|s| - 1] !in cs)
    ensures Trim(s, cs) == s
  {
  }

  /** Trimming twice trims nothing more. */
  lemma TrimIdempotent(s: string, cs: set<char>)
    ensures Trim(Trim(s, cs), cs) == Trim(s, cs)
  {
    TrimFixed(Trim(s, cs), cs);
  }

  /** `s.strip()` is empty exactly when `s` is all whitespace. */
  lemma StripEmptyIff(s: string)
    ensures Strip(s) == [] <==> forall k :: 0 <= k < |s| ==> s[k] in Whitespace
  {
    TrimEmptyIff(s, Whitespace);
  }

  lemma StripIdempotent(s: string)
    ensures Strip(Strip(s)) == Strip(s)
  {
    TrimIdempotent(s, Whitespace);
  }

  // ---------------------------------------------------------------------
  // Substrings and prefixes

  /** Python's `sub in s` on strings. */
  predicate Contains(s: string, sub: string) {
    exists i :: 0 <= i <= |s| - |sub| && sub <= s[i..]
  }

  /** Python's `s.startswith(p)`. */
  predicate StartsWith(s: string, p: string) {
    p <= s
  }

  /** Index of the first occurrence of `c` in `s` (Python's `s.index(c)`). */
  function IndexOf(s: string, c: char): (i: nat)
    requires c in s
    ensures i < |s| && s[i] == c && c !in s[..i]
  {
    if s[0] == c then 0 else 1 + IndexOf(s[1..], c)
  }

  // ---------------------------------------------------------------------
  // Decimal numbers: `str(n)`, `int(s)` and zero-padded fields

  predicate IsDigit(c: char) {
    '0' <= c <= '9'
  }

  function DigitChar(d: nat): (c: char)
    requires d < 10
    ensures IsDigit(c)
  {
    ('0' as int + d) as char
  }

  /** The value of a digit character; other characters count as zero. */
  function DigitOf(c: char): nat {
    if IsDigit(c) then c as int - '0' as int else 0
  }

  /** `str(n)` for a natural number: its decimal digits. */
  function NatToString(n: nat): (s: string)
    ensures |s| > 0
    ensures forall i :: 0 <= i < |s| ==> IsDigit(s[i])
  {
    if n < 10 then [DigitChar(n)] else NatToString(n / 10) + [DigitChar(n % 10)]
  }

  /** `str(n)` for any integer. */
  function IntToString(n: int): string {
    if n < 0 then "-" + NatToString(-n) else NatToString(n)
  }

  /** The number written by the digits of `s`, skipping `_` separators as
      `int()` does. */
  function DigitsValue(s: string): nat {
    if s == [] then 0
    else if s[|s| - 1] == '_' then DigitsValue(s[..|s| - 1])
    else DigitsValue(s[..|s| - 1]) * 10 + DigitOf(s[|s| - 1])
  }

  /** The body `int()` accepts after its optional sign: digits, with single
      underscores allowed between two digits. */
  predicate DigitGroups(s: string) {
    && |s| > 0
    && IsDigit(s[0])
    && IsDigit(s[|s| - 1])
    && (forall i :: 0 <= i < |s| ==> IsDigit(s[i]) || s[i] == '_')
    && (forall i :: 0 <= i < |s| - 1 ==> IsDigit(s[i]) || IsDigit(s[i + 1]))
  }

  /** Python's `int(s)`: `None` where Python raises `ValueError`. */
  function ParseInt(s: string): Option<int> {
    var t := Strip(s);
    if |t| > 0 && t[0] == '-' && DigitGroups(t[1..]) then Some(-(DigitsValue(t[1..]) as int))
    else if |t| > 0 && t[0] == '+' && DigitGroups(t[1..]) then Some(DigitsValue(t[1..]))
    else if DigitGroups(t) then Some(DigitsValue(t))
    else None
  }

  lemma {:induction false} NatToStringValue(n: nat)
    ensures DigitsValue(NatToString(n)) == n
  {
    var s := NatToString(n);
    if n >= 10 {
      assert s[..|s| - 1] == NatToString(n / 10);
      NatToStringValue(n / 10);
    }
  }

  lemma DigitsAreGroups(d: string)
    requires |d| > 0 && forall i :: 0 <= i < |d| ==> IsDigit(d[i])
    ensures DigitGroups(d)
  {
  }

  lemma NoSpaceInIntString(n: int)
    ensures Strip(IntToString(n)) == IntToString(n)
  {
    var s := IntToString(n);
    var d := NatToString(if n < 0 then -n else n);
    assert s[|s| - 1] == d[|d| - 1];
    assert IsDigit(s[|s| - 1]);
    assert s[0] == '-' || IsDigit(s[0]);
    TrimFixed(s, Whitespace);
  }

  /** `int(str(n)) == n`: the two conversions are inverse. */
  lemma ParseIntRoundTrip(n: int)
    ensures ParseInt(IntToString(n)) == Some(n)
  {
    var m: nat := if n < 0 then -n else n;
    var d := NatToString(m);
    NatToStringValue(m);
    DigitsAreGroups(d);
    NoSpaceInIntString(n);
    var s := IntToString(n);
    if n < 0 {
      assert s[1..] == d;
    } else {
      assert s == d && s[0] != '-' && s[0] != '+';
    }
  }

  function Pow10(k: nat): (p: nat)
    ensures p >= 1
  {
    if k == 0 then 1 else 10 * Pow10(k - 1)
  }

  /** `n` written with at least `width` digits, zero-padded on the left, as
      `strftime`'s `%m`, `%d`, `%H`, `%M`, `%S`, `%Y` fields are. */
  function Pad(n: nat, width: nat): string {
    var d := NatToString(n);
    if |d| >= width then d else seq(width - |d|, _ => '0') + d
  }

  lemma {:induction false} NatToStringLength(n: nat, k: nat)
    requires k >= 1 && n < Pow10(k)
    ensures |NatToString(n)| <= k
  {
    if n >= 10 {
      assert n / 10 < Pow10(k - 1);
      NatToStringLength(n / 10, k - 1);
    }
  }

  lemma {:induction false} LeadingZerosValue(z: nat, s: string)
    ensures DigitsValue(seq(z, _ => '0') + s) == DigitsValue(s)
    decreases |s|
  {
    var zs: string := seq(z, _ => '0');
    if s == [] {
      assert zs + s == zs;
      ZerosValue(z);
    } else {
      var t := zs + s;
      assert t[..|t| - 1] == zs + s[..|s| - 1];
      LeadingZerosValue(z, s[..|s| - 1]);
    }
  }

  lemma {:induction false} ZerosValue(z: nat)
    ensures DigitsValue(seq(z, _ => '0')) == 0
  {
    if z > 0 {
      var zs: string := seq(z, _ => '0');
      assert zs[..z - 1] == seq(z - 1, _ => '0');
      ZerosValue(z - 1);
    }
  }

  /** A padded field has exactly `width` digits and reads back as `n`. */
  lemma PadDecodes(n: nat, width: nat)
    requires width >= 1 && n < Pow10(width)
    ensures |Pad(n, width)| == width
    ensures forall i :: 0 <= i < width ==> IsDigit(Pad(n, width)[i])
    ensures DigitsValue(Pad(n, width)) == n
  {
    NatToStringLength(n, width);
    NatToStringValue(n);
    var d := NatToString(n);
    if |d| < width {
      LeadingZerosValue(width - |d|, d);
    }
  }

  // ---------------------------------------------------------------------
  // Case

  /** `c.lower()` for ASCII letters; every other character is unchanged. */
  function AsciiLower(c: char): char {
    if 'A' <= c <= 'Z' then (c as int + 32) as char else c
  }

  function AsciiLowerString(s: string): (r: string)
    ensures |r| == |s| && forall i :: 0 <= i < |s| ==> r[i] == AsciiLower(s[i])
  {
    if s == [] then [] else [AsciiLower(s[0])] + AsciiLowerString(s[1..])
  }
}
