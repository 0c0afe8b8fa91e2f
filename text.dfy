/**
 * The handful of PHP string built-ins the plugin's decision code relies on,
 * written out so that their edge cases are explicit: `empty()` on strings,
 * `strpos(...) !== false`, `str_replace`, `trim`, the quote-stripping
 * `preg_replace`, `strtolower`, `explode` and `intval`.
 */
module Text {

  /** PHP's `empty()` on a string: the empty string and "0" are both empty. */
  predicate IsPhpEmpty(s: string) {
    s == "" || s == "0"
  }

  /** `t` occurs in `s` starting at index `i`. */
  predicate OccursAt(s: string, t: string, i: int) {
    0 <= i <= |s| - |t| && s[i..i + |t|] == t
  }

  /** `strpos($s, $t) !== false`, decided by scanning left to right. */
  predicate Contains(s: string, t: string)
    decreases |s|
  {
    if |s| < |t| then false else s[..|t|] == t || Contains(s[1..], t)
  }

  /** The scan finds `t` exactly when `t` occurs somewhere in `s`. */
  lemma {:induction false} ContainsIff(s: string, t: string)
    ensures Contains(s, t) <==> exists i :: OccursAt(s, t, i)
    decreases |s|
  {
    if |s| >= |t| {
      if s[..|t|] == t {
        assert OccursAt(s, t, 0);
      } else {
        ContainsIff(s[1..], t);
        if exists i :: OccursAt(s, t, i) {
          var i :| OccursAt(s, t, i);
          assert i != 0;
          assert s[1..][i - 1..i - 1 + |t|] == s[i..i + |t|];
          assert OccursAt(s[1..], t, i - 1);
        }
        if exists i :: OccursAt(s[1..], t, i) {
          var i :| OccursAt(s[1..], t, i);
          assert s[1..][i..i + |t|] == s[i + 1..i + 1 + |t|];
          assert OccursAt(s, t, i + 1);
        }
      }
    }
  }

  /** Text found in `s` is still found after more text is appended. */
  lemma ContainsAppend(s: string, b: string, t: string)
    requires Contains(s, t)
    ensures Contains(s + b, t)
  {
    ContainsIff(s, t);
    var i :| OccursAt(s, t, i);
    assert (s + b)[i..i + |t|] == s[i..i + |t|];
    assert OccursAt(s + b, t, i);
    ContainsIff(s + b, t);
  }

  /** Text found in `s` is still found after more text is prepended. */
  lemma ContainsPrepend(a: string, s: string, t: string)
    requires Contains(s, t)
    ensures Contains(a + s, t)
  {
    ContainsIff(s, t);
    var i :| OccursAt(s, t, i);
    assert (a + s)[|a| + i..|a| + i + |t|] == s[i..i + |t|];
    assert OccursAt(a + s, t, |a| + i);
    ContainsIff(a + s, t);
  }

  /** A string is found between any prefix and suffix. */
  lemma ContainsInfix(a: string, t: string, b: string)
    ensures Contains(a + t + b, t)
  {
    assert Contains(t, t);
    ContainsPrepend(a, t, t);
    ContainsAppend(a + t, b, t);
  }

  /** Text that lacks a character contains nothing that starts with it. */
  lemma MissingFirstChar(s: string, t: string)
    requires |t| > 0 && t[0] !in s
    ensures !Contains(s, t)
  {
    forall i | 0 <= i <= |s| - |t|
      ensures !OccursAt(s, t, i)
    {
      assert s[i] in s;
      assert s[i..i + |t|][0] != t[0];
    }
    ContainsIff(s, t);
  }

  // ---------------------------------------------------------------------
  // str_replace with a single search string

  /** `str_replace(pat, by, s)`: every non-overlapping occurrence of `pat`,
      found left to right, is replaced by `repl`. */
  function ReplaceAll(s: string, pat: string, repl: string): string
    requires |pat| > 0
    decreases |s|
  {
    if |s| < |pat| then s
    else if s[..|pat|] == pat then repl + ReplaceAll(s[|pat|..], pat, repl)
    else [s[0]] + ReplaceAll(s[1..], pat, repl)
  }

  /** Text that does not contain the first character of the pattern is
      copied through unchanged, and so is everything after it. */
  lemma {:induction false} ReplaceAllSkips(a: string, t: string, pat: string, repl: string)
    requires |pat| > 0 && pat[0] !in a
    ensures ReplaceAll(a + t, pat, repl) == a + ReplaceAll(t, pat, repl)
    decreases |a|
  {
    if a == [] {
      assert a + t == t;
    } else {
      var s := a + t;
      assert s[0] == a[0];
      if |s| < |pat| {
        ReplaceAllShort(s, pat, repl);
        ReplaceAllShort(t, pat, repl);
      } else {
        assert s[..|pat|][0] == a[0] != pat[0];
        assert s[1..] == a[1..] + t;
        ReplaceAllSkips(a[1..], t, pat, repl);
        assert [a[0]] + a[1..] == a;
      }
    }
  }

  lemma ReplaceAllShort(s: string, pat: string, repl: string)
    requires 0 < |pat| && |s| < |pat|
    ensures ReplaceAll(s, pat, repl) == s
  {
  }

  /** A template with exactly one placeholder, and no other occurrence of its
      first character, becomes prefix, replacement, suffix. */
  lemma ReplaceSinglePlaceholder(head: string, pat: string, tail: string, repl: string)
    requires |pat| > 0 && pat[0] !in head && pat[0] !in tail
    ensures ReplaceAll(head + pat + tail, pat, repl) == head + repl + tail
  {
    ReplaceAllSkips(head, pat + tail, pat, repl);
    assert head + pat + tail == head + (pat + tail);
    assert (pat + tail)[..|pat|] == pat;
    assert (pat + tail)[|pat|..] == tail;
    ReplaceAllSkips(tail, [], pat, repl);
    assert tail + [] == tail;
    assert ReplaceAll([], pat, repl) == [];
  }

  // ---------------------------------------------------------------------
  // trim and the quote-stripping regular expression

  /** The characters PHP's `trim` removes by default: " \t\n\r\0\x0B". */
  predicate IsTrimChar(c: char) {
    c == ' ' || c == '\t' || c == '\n' || c == '\r' || c == '\0' || c == '\U{000B}'
  }

  predicate IsQuote(c: char) {
    c == '"' || c == '\''
  }

  /** Removes the longest prefix whose characters all satisfy `p`. */
  function DropWhile(s: string, p: char -> bool): (r: string)
    ensures |r| <= |s| && r == s[|s| - |r|..]
    ensures forall k :: 0 <= k < |s| - |r| ==> p(s[k])
    ensures |r| > 0 ==> !p(r[0])
  {
    if |s| > 0 && p(s[0]) then DropWhile(s[1..], p) else s
  }

  /** Removes the longest suffix whose characters all satisfy `p`. */
  function DropWhileEnd(s: string, p: char -> bool): (r: string)
    ensures |r| <= |s| && r == s[..|r|]
    ensures forall k :: |r| <= k < |s| ==> p(s[k])
    ensures |r| > 0 ==> !p(r[|r| - 1])
  {
    if |s| > 0 && p(s[|s| - 1]) then DropWhileEnd(s[..|s| - 1], p) else s
  }

  /** A prefix that is all `p`, followed by text that does not start with
      `p`, is exactly what DropWhile removes. */
  lemma {:induction false} DropWhilePrefix(a: string, b: string, p: char -> bool)
    requires forall k :: 0 <= k < |a| ==> p(a[k])
    requires |b| > 0 ==> !p(b[0])
    ensures DropWhile(a + b, p) == b
    decreases |a|
  {
    if a == [] {
      assert a + b == b;
    } else {
      assert (a + b)[1..] == a[1..] + b;
      DropWhilePrefix(a[1..], b, p);
    }
  }

  /** A suffix that is all `p`, after text that does not end with `p`, is
      exactly what DropWhileEnd removes. */
  lemma {:induction false} DropWhileEndSuffix(a: string, b: string, p: char -> bool)
    requires forall k :: 0 <= k < |b| ==> p(b[k])
    requires |a| > 0 ==> !p(a[|a| - 1])
    ensures DropWhileEnd(a + b, p) == a
    decreases |b|
  {
    if b == [] {
      assert a + b == a;
    } else {
      assert (a + b)[..|a + b| - 1] == a + b[..|b| - 1];
      DropWhileEndSuffix(a, b[..|b| - 1], p);
    }
  }

  /** PHP `trim($s)`. */
  function Trim(s: string): string {
    DropWhileEnd(DropWhile(s, IsTrimChar), IsTrimChar)
  }

  /** `preg_replace('/^["\']+|["\']+$/', '', $s)` on a string that does not
      end in a newline: the leading and the trailing run of quotes go. */
  function StripQuoteRuns(s: string): string {
    DropWhileEnd(DropWhile(s, IsQuote), IsQuote)
  }

  /** Stripping twice is stripping once. */
  lemma {:induction false} StripBothIdempotent(s: string, p: char -> bool)
    ensures var r := DropWhileEnd(DropWhile(s, p), p);
      DropWhileEnd(DropWhile(r, p), p) == r
  {
    var r := DropWhileEnd(DropWhile(s, p), p);
    if |r| > 0 {
      assert DropWhile(r, p) == r;
      assert DropWhileEnd(r, p) == r;
    }
  }

  // ---------------------------------------------------------------------
  // strtolower and explode

  /** PHP 8 `strtolower`: only ASCII letters change. */
  function ToLowerAscii(s: string): (r: string)
    ensures |r| == |s|
    ensures forall k :: 0 <= k < |s| ==> (r[k] == 'x' <==> s[k] == 'x' || s[k] == 'X')
    ensures forall k :: 0 <= k < |s| ==> ('0' <= s[k] <= '9' ==> r[k] == s[k])
  {
    seq(|s|, k requires 0 <= k < |s| => if 'A' <= s[k] <= 'Z' then (s[k] as int + 32) as char else s[k])
  }

  /** Number of occurrences of `c` in `s`. */
  function Occurrences(s: string, c: char): nat {
    if s == [] then 0 else (if s[0] == c then 1 else 0) + Occurrences(s[1..], c)
  }

  /** PHP `explode($sep, $s)` for a one-character separator. */
  function Split(s: string, sep: char): (parts: seq<string>)
    ensures |parts| == Occurrences(s, sep) + 1
    ensures forall k :: 0 <= k < |parts| ==> sep !in parts[k]
  {
    if s == [] then [""]
    else
      var rest := Split(s[1..], sep);
      if s[0] == sep then [""] + rest else [[s[0]] + rest[0]] + rest[1..]
  }

  /** PHP `implode($sep, $parts)`. */
  function Join(parts: seq<string>, sep: char): string
    requires |parts| >= 1
  {
    if |parts| == 1 then parts[0] else parts[0] + [sep] + Join(parts[1..], sep)
  }

  /** `implode` undoes `explode`. */
  lemma {:induction false} JoinSplit(s: string, sep: char)
    ensures Join(Split(s, sep), sep) == s
  {
    if s != [] {
      var rest := Split(s[1..], sep);
      JoinSplit(s[1..], sep);
      if s[0] == sep {
        assert Split(s, sep)[1..] == rest;
      } else {
        var parts := Split(s, sep);
        assert parts[0] == [s[0]] + rest[0];
        assert parts[1..] == rest[1..];
        if |rest| == 1 {
          assert Join(rest, sep) == rest[0];
        } else {
          assert Join(rest, sep) == rest[0] + [sep] + Join(rest[1..], sep);
        }
      }
    }
  }

  /** `explode` of two separator-free pieces around one separator gives them back. */
  lemma SplitTwo(a: string, b: string, sep: char)
    requires sep !in a && sep !in b
    ensures Split(a + [sep] + b, sep) == [a, b]
  {
    var t := [sep] + b;
    SplitNoSep(b, sep);
    assert t[1..] == b;
    assert Split(t, sep) == [""] + Split(b, sep);
    assert Split(t, sep) == ["", b];
    SplitAfterPrefix(a, t, sep);
    assert a + [sep] + b == a + t;
    assert a + "" == a;
  }

  lemma {:induction false} SplitNoSep(s: string, sep: char)
    requires sep !in s
    ensures Split(s, sep) == [s]
  {
    if s != [] {
      SplitNoSep(s[1..], sep);
      assert [s[0]] + s[1..] == s;
    }
  }

  /** A separator-free prefix is glued onto the first piece. */
  lemma {:induction false} SplitAfterPrefix(a: string, t: string, sep: char)
    requires sep !in a
    ensures Split(a + t, sep) == [a + Split(t, sep)[0]] + Split(t, sep)[1..]
  {
    if a == [] {
      assert a + t == t;
      assert a + Split(t, sep)[0] == Split(t, sep)[0];
    } else {
      assert (a + t)[1..] == a[1..] + t;
      SplitAfterPrefix(a[1..], t, sep);
      assert [a[0]] + (a[1..] + Split(t, sep)[0]) == a + Split(t, sep)[0];
    }
  }

  // ---------------------------------------------------------------------
  // intval on strings, and decimal rendering as its inverse

  predicate IsDigit(c: char) {
    '0' <= c <= '9'
  }

  /** The whitespace `intval` skips before the number: " \t\n\r\v\f". */
  predicate IsLeadingSpace(c: char) {
    c == ' ' || c == '\t' || c == '\n' || c == '\r' || c == '\U{000B}' || c == '\U{000C}'
  }

  function DigitValue(c: char): nat
    requires IsDigit(c)
  {
    c as int - '0' as int
  }

  /** The value of a string of decimal digits. */
  function DigitsValue(s: string): nat
    requires forall k :: 0 <= k < |s| ==> IsDigit(s[k])
  {
    if s == [] then 0 else 10 * DigitsValue(s[..|s| - 1]) + DigitValue(s[|s| - 1])
  }

  /** The longest prefix of decimal digits. */
  function LeadingDigits(s: string): (r: string)
    ensures |r| <= |s| && r == s[..|r|]
    ensures forall k :: 0 <= k < |r| ==> IsDigit(r[k])
    ensures |r| < |s| ==> !IsDigit(s[|r|])
  {
    if s != [] && IsDigit(s[0]) then [s[0]] + LeadingDigits(s[1..]) else []
  }

  /** PHP_INT_MIN and PHP_INT_MAX on a 64-bit build. */
  const PhpIntMin: int := -0x8000_0000_0000_0000
  const PhpIntMax: int := 0x7FFF_FFFF_FFFF_FFFF

  /** The saturating conversion of an out-of-range number to a PHP int. */
  function Saturate(v: int): (r: int)
    ensures PhpIntMin <= r <= PhpIntMax
    ensures PhpIntMin <= v <= PhpIntMax ==> r == v
    ensures (r > 0 <==> v > 0) && (r < 0 <==> v < 0)
  {
    if v > PhpIntMax then PhpIntMax else if v < PhpIntMin then PhpIntMin else v
  }

  function Pow10(n: nat): nat {
    if n == 0 then 1 else 10 * Pow10(n - 1)
  }

  /** `d · 10^shift`, truncated toward zero when `shift` is negative (one
      digit at a time, which truncates the same as dividing at once). */
  function Scale(d: nat, shift: int): nat
    decreases if shift < 0 then -shift else shift
  {
    if shift == 0 then d
    else if shift > 0 then 10 * Scale(d, shift - 1)
    else Scale(d, shift + 1) / 10
  }

  lemma {:induction false} ScaleUp(d: nat, n: nat)
    ensures Scale(d, n) == d * Pow10(n)
  {
    if n > 0 {
      ScaleUp(d, n - 1);
      calc {
        Scale(d, n);
        10 * (d * Pow10(n - 1));
        { MulRotate(10, d, Pow10(n - 1)); }
        d * Pow10(n);
      }
    }
  }

  lemma MulRotate(a: int, b: int, c: int)
    ensures a * (b * c) == b * (a * c)
  {
  }

  /** The exponent that may follow a mantissa: `e` or `E`, an optional sign
      and at least one digit; 0 when there is none. */
  function ExponentOf(s: string): int {
    if |s| >= 2 && (s[0] == 'e' || s[0] == 'E') then
      if IsDigit(s[1]) then DigitsValue(LeadingDigits(s[1..]))
      else if |s| >= 3 && (s[1] == '+' || s[1] == '-') && IsDigit(s[2]) then
        var e: int := DigitsValue(LeadingDigits(s[2..]));
        if s[1] == '-' then -e else e
      else 0
    else 0
  }

  /** The magnitude of the unsigned number a string starts with, truncated
      toward zero: digits, an optional `.` and fraction digits (at least one
      digit in all), then an optional exponent; 0 when there is no number. */
  function NumericMagnitude(s: string): nat {
    var whole := LeadingDigits(s);
    var rest := s[|whole|..];
    var hasPoint := |rest| > 0 && rest[0] == '.';
    var fraction := if hasPoint then LeadingDigits(rest[1..]) else [];
    if whole == [] && fraction == [] then 0
    else
      var tail := if hasPoint then rest[1 + |fraction|..] else rest;
      assert forall k :: 0 <= k < |whole + fraction| ==> IsDigit((whole + fraction)[k]);
      Scale(DigitsValue(whole + fraction), ExponentOf(tail) - |fraction|)
  }

  /** PHP `intval` on a string (PHP 7.1 and later): optional leading
      whitespace, an optional sign, then the longest numeric prefix, read as
      a float when it has a fraction or an exponent, truncated toward zero
      and saturated at the bounds of a 64-bit int; no number gives 0. */
  function IntVal(s: string): int {
    var t := DropWhile(s, IsLeadingSpace);
    var signed := |t| > 0 && (t[0] == '-' || t[0] == '+');
    var m: int := NumericMagnitude(if signed then t[1..] else t);
    Saturate(if |t| > 0 && t[0] == '-' then -m else m)
  }

  /** Decimal rendering of a natural number, as PHP prints an int. */
  function Decimal(n: nat): (s: string)
    ensures |s| > 0 && forall k :: 0 <= k < |s| ==> IsDigit(s[k])
  {
    if n < 10 then [('0' as int + n) as char] else Decimal(n / 10) + [('0' as int + n % 10) as char]
  }

  /** `intval` reads back what `Decimal` printed. */
  lemma {:induction false} DecimalValue(n: nat)
    ensures DigitsValue(Decimal(n)) == n
  {
    if n >= 10 {
      var s := Decimal(n);
      assert s[..|s| - 1] == Decimal(n / 10);
      DecimalValue(n / 10);
    }
  }

  /** A string that starts with a digit is read without a sign. */
  lemma IntValUnsigned(s: string)
    requires |s| > 0 && IsDigit(s[0])
    ensures IntVal(s) == Saturate(NumericMagnitude(s))
  {
    assert !IsLeadingSpace(s[0]);
    assert DropWhile(s, IsLeadingSpace) == s;
  }

  /** A minus sign before a digit negates the number. */
  lemma IntValMinus(s: string)
    requires |s| > 0 && IsDigit(s[0])
    ensures IntVal("-" + s) == Saturate(-(NumericMagnitude(s) as int))
  {
    var t := "-" + s;
    assert !IsLeadingSpace(t[0]);
    assert DropWhile(t, IsLeadingSpace) == t;
    assert t[1..] == s;
  }

  /** A numeral with nothing after it is its own value. */
  lemma MagnitudeOfDigits(s: string)
    requires |s| > 0 && forall k :: 0 <= k < |s| ==> IsDigit(s[k])
    ensures NumericMagnitude(s) == DigitsValue(s)
  {
    AllDigitsLeading(s);
    assert s[|s|..] == [];
    assert s + [] == s;
  }

  /** `intval` of a decimal numeral is its value, saturated at PHP_INT_MAX. */
  lemma IntValDecimal(n: nat)
    ensures IntVal(Decimal(n)) == Saturate(n)
  {
    IntValUnsigned(Decimal(n));
    MagnitudeOfDigits(Decimal(n));
    DecimalValue(n);
  }

  /** `intval` of a negated decimal numeral. */
  lemma IntValNegated(n: nat)
    ensures IntVal("-" + Decimal(n)) == Saturate(-(n as int))
  {
    IntValMinus(Decimal(n));
    MagnitudeOfDigits(Decimal(n));
    DecimalValue(n);
  }

  /** `intval` of `MeE`, the exponent form PHP reads as a float since 7.1:
      the mantissa times ten to the exponent, saturated at PHP_INT_MAX. */
  lemma IntValScientific(m: nat, e: nat)
    ensures IntVal(Decimal(m) + "e" + Decimal(e)) == Saturate(m * Pow10(e))
  {
    var a, b := Decimal(m), Decimal(e);
    assert (a + "e" + b)[0] == a[0];
    IntValUnsigned(a + "e" + b);
    MagnitudeScientific(a, b);
    DecimalValue(m);
    DecimalValue(e);
    ScaleUp(m, e);
  }

  lemma MagnitudeScientific(a: string, b: string)
    requires |a| > 0 && forall k :: 0 <= k < |a| ==> IsDigit(a[k])
    requires |b| > 0 && forall k :: 0 <= k < |b| ==> IsDigit(b[k])
    ensures NumericMagnitude(a + "e" + b) == Scale(DigitsValue(a), DigitsValue(b))
  {
    assert a + "e" + b == a + ("e" + b);
    MagnitudeBeforeTail(a, "e" + b);
    ExponentDigits(b);
  }

  /** Digits followed by something other than a digit or a point: the tail
      contributes only its exponent. */
  lemma MagnitudeBeforeTail(a: string, tail: string)
    requires |a| > 0 && forall k :: 0 <= k < |a| ==> IsDigit(a[k])
    requires |tail| > 0 && !IsDigit(tail[0]) && tail[0] != '.'
    ensures NumericMagnitude(a + tail) == Scale(DigitsValue(a), ExponentOf(tail))
  {
    var s := a + tail;
    LeadingDigitsPrefix(a, tail);
    assert s[|a|..] == tail;
    assert a + [] == a;
  }

  lemma ExponentDigits(b: string)
    requires |b| > 0 && forall k :: 0 <= k < |b| ==> IsDigit(b[k])
    ensures ExponentOf("e" + b) == DigitsValue(b)
  {
    assert ("e" + b)[1..] == b;
    AllDigitsLeading(b);
  }

  /** The digits of a numeral followed by a non-digit are read up to it. */
  lemma {:induction false} LeadingDigitsPrefix(a: string, b: string)
    requires forall k :: 0 <= k < |a| ==> IsDigit(a[k])
    requires |b| > 0 && !IsDigit(b[0])
    ensures LeadingDigits(a + b) == a
  {
    if a != [] {
      assert (a + b)[1..] == a[1..] + b;
      LeadingDigitsPrefix(a[1..], b);
      assert [a[0]] + a[1..] == a;
    } else {
      assert a + b == b;
    }
  }

  lemma {:induction false} AllDigitsLeading(s: string)
    requires forall k :: 0 <= k < |s| ==> IsDigit(s[k])
    ensures LeadingDigits(s) == s
  {
    if s != [] {
      AllDigitsLeading(s[1..]);
      assert [s[0]] + s[1..] == s;
    }
  }
}
