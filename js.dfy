/**
 The JavaScript built-ins that the string utilities and the row parser lean on,
 stated over `string` (a sequence of characters):

 - the class `\s` of regular expressions, which is also the set `String.prototype.trim`
   and `parseInt` skip (ECMAScript WhiteSpace and LineTerminator);
 - `toUpperCase`/`toLowerCase`, restricted to ASCII letters;
 - `trim`, `includes`, `replaceAll` with a literal pattern;
 - `Number.prototype.toString()` for integers;
 - `parseInt` without a radix, whose NaN result is `None`.
 */
module Js {

  datatype Option<+T> = None | Some(value: T)

  predicate IsWhiteSpace(c: char) {
    c == '\t' || c == '\n' || c == '\U{B}' || c == '\U{C}' || c == '\r' || c == ' ' ||
    c == '\U{A0}' || c == '\U{1680}' || ('\U{2000}' <= c <= '\U{200A}') ||
    c == '\U{2028}' || c == '\U{2029}' || c == '\U{202F}' || c == '\U{205F}' ||
    c == '\U{3000}' || c == '\U{FEFF}'
  }

  predicate IsDecimalDigit(c: char) {
    '0' <= c <= '9'
  }

  predicate AllDigits(s: string) {
    forall j :: 0 <= j < |s| ==> IsDecimalDigit(s[j])
  }

  predicate IsAsciiLetter(c: char) {
    'a' <= c <= 'z' || 'A' <= c <= 'Z'
  }

  function ToUpper(c: char): char {
    if 'a' <= c <= 'z' then (c as int - 32) as char else c
  }

  function ToLower(c: char): char {
    if 'A' <= c <= 'Z' then (c as int + 32) as char else c
  }

  /** `s.toLowerCase()` on ASCII letters; every other character is kept. */
  function Lower(s: string): string {
    seq(|s|, i requires 0 <= i < |s| => ToLower(s[i]))
  }

  /** Case mapping is idempotent and never turns a character into or out of whitespace. */
  lemma CaseMapping(c: char)
    ensures ToUpper(ToUpper(c)) == ToUpper(c) && ToLower(ToLower(c)) == ToLower(c)
    ensures ToUpper(ToLower(c)) == ToUpper(c) && ToLower(ToUpper(c)) == ToLower(c)
    ensures IsWhiteSpace(ToUpper(c)) == IsWhiteSpace(c) && IsWhiteSpace(ToLower(c)) == IsWhiteSpace(c)
  {
  }

  function WhiteSpaceRun(s: string): (n: nat)
    ensures n <= |s|
    ensures forall i :: 0 <= i < n ==> IsWhiteSpace(s[i])
    ensures n == |s| || !IsWhiteSpace(s[n])
  {
    if s != [] && IsWhiteSpace(s[0]) then 1 + WhiteSpaceRun(s[1..]) else 0
  }

  function TrimEnd(s: string): (r: string)
    ensures |r| <= |s| && r == s[..|r|]
    ensures r == [] || !IsWhiteSpace(r[|r| - 1])
    ensures forall i :: |r| <= i < |s| ==> IsWhiteSpace(s[i])
  {
    if s != [] && IsWhiteSpace(s[|s| - 1]) then TrimEnd(s[..|s| - 1]) else s
  }

  /**
   `s.trim()`: the slice of `s` left after removing the whitespace on both
   ends; it starts and ends with a non-whitespace character.
   */
  function Trim(s: string): (r: string)
    ensures var i := WhiteSpaceRun(s);
      i + |r| <= |s| && r == s[i..i + |r|] &&
      forall k :: i + |r| <= k < |s| ==> IsWhiteSpace(s[k])
    ensures r == [] || (!IsWhiteSpace(r[0]) && !IsWhiteSpace(r[|r| - 1]))
  {
    var t := s[WhiteSpaceRun(s)..];
    var r := TrimEnd(t);
    assert r == s[WhiteSpaceRun(s)..][..|r|];
    r
  }

  /** A string trims to nothing exactly when it consists of whitespace only. */
  lemma TrimEmpty(s: string)
    ensures Trim(s) == [] <==> forall k :: 0 <= k < |s| ==> IsWhiteSpace(s[k])
  {
  }

  predicate StartsWith(s: string, prefix: string) {
    |prefix| <= |s| && s[..|prefix|] == prefix
  }

  /** `s.includes(sub)`: `sub` occurs in `s` at some position. */
  predicate Includes(s: string, sub: string)
    decreases |s|
  {
    StartsWith(s, sub) || (s != [] && Includes(s[1..], sub))
  }

  /** `includes` finds an occurrence exactly when one exists at some index. */
  lemma {:induction false} IncludesAt(s: string, sub: string)
    ensures Includes(s, sub) <==> exists i :: 0 <= i <= |s| && StartsWith(s[i..], sub)
    decreases |s|
  {
    if s != [] {
      IncludesAt(s[1..], sub);
      if exists i :: 0 <= i <= |s| && StartsWith(s[i..], sub) {
        var i :| 0 <= i <= |s| && StartsWith(s[i..], sub);
        if i > 0 {
          assert s[1..][i - 1..] == s[i..];
        }
      }
      if StartsWith(s, sub) {
        assert s[0..] == s;
      } else if Includes(s[1..], sub) {
        var i :| 0 <= i <= |s[1..]| && StartsWith(s[1..][i..], sub);
        assert s[1..][i..] == s[i + 1..];
        assert StartsWith(s[i + 1..], sub);
      }
    } else {
      assert s[0..] == s;
    }
  }

  /** Every contiguous slice of `s` is found by `includes`. */
  lemma IncludesSlice(s: string, i: nat, j: nat)
    requires i <= j <= |s|
    ensures Includes(s, s[i..j])
  {
    assert StartsWith(s[i..], s[i..j]);
    IncludesAt(s, s[i..j]);
  }

  /** A pattern longer than the text is not found in it. */
  lemma IncludesLonger(s: string, sub: string)
    requires |s| < |sub|
    ensures !Includes(s, sub)
  {
    IncludesAt(s, sub);
  }

  /** Lower-casing commutes with slicing. */
  lemma LowerSlice(s: string, i: nat, j: nat)
    requires i <= j <= |s|
    ensures Lower(s[i..j]) == Lower(s)[i..j]
  {
  }

  /** Trimming an already trimmed string changes nothing. */
  lemma TrimIdempotent(s: string)
    ensures Trim(Trim(s)) == Trim(s)
  {
    var r := Trim(s);
    assert WhiteSpaceRun(r) == 0;
    assert r[0..] == r;
    assert TrimEnd(r) == r;
  }

  /**
   `s.replaceAll(pattern, replacement)` with a non-empty literal pattern:
   occurrences are found from the left and do not overlap.
   */
  function ReplaceAll(s: string, pattern: string, replacement: string): string
    requires pattern != []
    decreases |s|
  {
    if StartsWith(s, pattern) then replacement + ReplaceAll(s[|pattern|..], pattern, replacement)
    else if s == [] then []
    else [s[0]] + ReplaceAll(s[1..], pattern, replacement)
  }

  /** A prefix in which the pattern cannot start is copied unchanged. */
  lemma {:induction false} ReplaceAllKeepsPrefix(a: string, t: string, pattern: string, replacement: string)
    requires pattern != [] && pattern[0] !in a
    ensures ReplaceAll(a + t, pattern, replacement) == a + ReplaceAll(t, pattern, replacement)
  {
    if a == [] {
      assert a + t == t;
    } else {
      var s := a + t;
      var rest := ReplaceAll(t, pattern, replacement);
      assert s[0] == a[0] && s[1..] == a[1..] + t;
      assert a[0] != pattern[0];
      assert !StartsWith(s, pattern) by {
        if |pattern| <= |s| {
          assert s[..|pattern|][0] == s[0];
        }
      }
      assert ReplaceAll(s, pattern, replacement) == [s[0]] + ReplaceAll(s[1..], pattern, replacement);
      ReplaceAllKeepsPrefix(a[1..], t, pattern, replacement);
      assert [a[0]] + (a[1..] + rest) == a + rest by {
        assert a == [a[0]] + a[1..];
      }
    }
  }

  /** An occurrence at the front is replaced, and the scan resumes after it. */
  lemma ReplaceAllAtPattern(t: string, pattern: string, replacement: string)
    requires pattern != []
    ensures ReplaceAll(pattern + t, pattern, replacement) == replacement + ReplaceAll(t, pattern, replacement)
  {
    var s := pattern + t;
    assert s[..|pattern|] == pattern && s[|pattern|..] == t;
  }

  /** Deleting every occurrence of a pattern changes the string exactly when the pattern occurs in it. */
  lemma {:induction false} DeleteAllUnchanged(s: string, pattern: string)
    requires pattern != []
    ensures ReplaceAll(s, pattern, []) == s <==> !Includes(s, pattern)
    ensures Includes(s, pattern) ==> |ReplaceAll(s, pattern, [])| < |s|
    ensures |ReplaceAll(s, pattern, [])| <= |s|
    decreases |s|
  {
    if StartsWith(s, pattern) {
      DeleteAllUnchanged(s[|pattern|..], pattern);
    } else if s != [] {
      DeleteAllUnchanged(s[1..], pattern);
    }
  }

  // ---------------------------------------------------------------------------
  // Number.prototype.toString for integers

  function DigitChar(d: nat): (c: char)
    requires d < 10
    ensures IsDecimalDigit(c) && DigitValue(c) == d
  {
    ('0' as int + d) as char
  }

  /** Decimal digits of `n`, most significant first, with no leading zero. */
  function NatToString(n: nat): (r: string)
    ensures |r| >= 1
    ensures AllDigits(r)
    ensures r[0] == '0' ==> n == 0 && |r| == 1
    decreases n
  {
    if n < 10 then [DigitChar(n)] else NatToString(n / 10) + [DigitChar(n % 10)]
  }

  /** `x.toString()` for an integer `x`: an optional `-`, then the decimal digits of `|x|`. */
  function IntToString(x: int): string {
    if x < 0 then "-" + NatToString(-x) else NatToString(x)
  }

  // ---------------------------------------------------------------------------
  // parseInt without a radix

  /** Value of a digit in radices up to 36; 36 for a character that is no digit at all. */
  function DigitValue(c: char): nat {
    if '0' <= c <= '9' then c as int - '0' as int
    else if 'a' <= c <= 'z' then c as int - 'a' as int + 10
    else if 'A' <= c <= 'Z' then c as int - 'A' as int + 10
    else 36
  }

  /** Length of the run of radix-`radix` digits at the start of `s`. */
  function DigitRun(s: string, radix: nat): (n: nat)
    ensures n <= |s|
    ensures forall i :: 0 <= i < n ==> DigitValue(s[i]) < radix
    ensures n == |s| || DigitValue(s[n]) >= radix
  {
    if s != [] && DigitValue(s[0]) < radix then 1 + DigitRun(s[1..], radix) else 0
  }

  /** Number written by the digits `s` in radix `radix`, most significant first. */
  function Value(s: string, radix: nat): nat {
    if s == [] then 0 else Value(s[..|s| - 1], radix) * radix + DigitValue(s[|s| - 1])
  }

  /**
   The digits of `parseInt` after the sign: radix 16 after a `0x`/`0X`
   prefix, radix 10 otherwise, and the longest run of digits of that radix;
   no digit at all is NaN, here `None`.
   */
  function ParseUnsigned(u: string): Option<nat> {
    var hex := |u| >= 2 && u[0] == '0' && (u[1] == 'x' || u[1] == 'X');
    var radix := if hex then 16 else 10;
    var body := if hex then u[2..] else u;
    var n := DigitRun(body, radix);
    if n == 0 then None else Some(Value(body[..n], radix))
  }

  /** `parseInt(s)`: skip leading whitespace, read an optional sign, then the digits. */
  function ParseInt(s: string): Option<int> {
    var t := s[WhiteSpaceRun(s)..];
    if t != [] && t[0] == '-' then
      match ParseUnsigned(t[1..])
      case None => None
      case Some(v) => Some(-(v as int))
    else if t != [] && t[0] == '+' then ParseUnsigned(t[1..])
    else ParseUnsigned(t)
  }

  lemma {:induction false} ValueOfNatToString(n: nat)
    ensures Value(NatToString(n), 10) == n
    decreases n
  {
    var r := NatToString(n);
    if n >= 10 {
      ValueOfNatToString(n / 10);
      assert r[..|r| - 1] == NatToString(n / 10);
    }
  }

  lemma {:induction false} DecimalRunAll(s: string)
    requires AllDigits(s)
    ensures DigitRun(s, 10) == |s|
  {
    if s != [] {
      DecimalRunAll(s[1..]);
    }
  }

  lemma {:induction false} DecimalRunStops(d: string, rest: string)
    requires AllDigits(d)
    requires rest == [] || !IsDecimalDigit(rest[0])
    ensures DigitRun(d + rest, 10) == |d|
  {
    if d != [] {
      assert (d + rest)[1..] == d[1..] + rest;
      DecimalRunStops(d[1..], rest);
    } else {
      assert d + rest == rest;
    }
  }

  /** The string form of an integer reads back as that integer. */
  lemma ParseIntOfIntToString(x: int)
    ensures ParseInt(IntToString(x)) == Some(x)
  {
    var n: nat := if x < 0 then -x else x;
    var d := NatToString(n);
    var s := IntToString(x);
    assert WhiteSpaceRun(s) == 0;
    assert s[0..] == s;
    if x < 0 {
      assert s[1..] == d;
    }
    DecimalRunAll(d);
    assert d[..|d|] == d;
    ValueOfNatToString(n);
  }

  lemma UnsignedLeadingDigits(d: string, rest: string)
    requires d != [] && AllDigits(d)
    requires rest == [] || !IsDecimalDigit(rest[0])
    requires !(d == "0" && rest != [] && (rest[0] == 'x' || rest[0] == 'X'))
    ensures ParseUnsigned(d + rest) == Some(Value(d, 10))
  {
    var u := d + rest;
    assert !(|u| >= 2 && u[0] == '0' && (u[1] == 'x' || u[1] == 'X')) by {
      if |d| >= 2 {
        assert u[1] == d[1];
      } else if rest != [] {
        assert u[1] == rest[0];
      }
    }
    DecimalRunStops(d, rest);
    assert u[..|d|] == d;
  }

  /**
   A string that starts with decimal digits (and not with the hexadecimal
   prefix `0x`/`0X`) parses to the value of those digits; what follows them
   is ignored.
   */
  lemma ParseIntLeadingDigits(d: string, rest: string)
    requires d != [] && AllDigits(d)
    requires rest == [] || !IsDecimalDigit(rest[0])
    requires !(d == "0" && rest != [] && (rest[0] == 'x' || rest[0] == 'X'))
    ensures ParseInt(d + rest) == Some(Value(d, 10))
  {
    var s := d + rest;
    assert s[0] == d[0];
    assert WhiteSpaceRun(s) == 0;
    assert s[0..] == s;
    UnsignedLeadingDigits(d, rest);
  }

  /** A string starting with neither whitespace, a sign nor a digit is NaN. */
  lemma ParseIntNoDigits(s: string)
    requires s == [] || !(IsWhiteSpace(s[0]) || s[0] == '-' || s[0] == '+' || IsDecimalDigit(s[0]))
    ensures ParseInt(s) == None
  {
    assert WhiteSpaceRun(s) == 0;
    assert s[0..] == s;
  }
}
