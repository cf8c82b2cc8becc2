/** The JavaScript string operations the note and course handlers rely on:
    `trim`, `toLowerCase`, `split(sep).pop()`, `startsWith` and the decimal
    rendering of a non-negative integer in a template string. */
module Strings {

  /** White space and line terminators removed by JavaScript's `String.prototype.trim`. */
  predicate IsSpace(c: char) {
    var n := c as int;
    n == 0x09 || n == 0x0A || n == 0x0B || n == 0x0C || n == 0x0D || n == 0x20 ||
    n == 0xA0 || n == 0x1680 || (0x2000 <= n <= 0x200A) || n == 0x2028 || n == 0x2029 ||
    n == 0x202F || n == 0x205F || n == 0x3000 || n == 0xFEFF
  }

  /** Number of white-space characters at the start of `s`. */
  function LeadingSpaces(s: string): (k: nat)
    ensures k <= |s|
    ensures forall i :: 0 <= i < k ==> IsSpace(s[i])
    ensures k < |s| ==> !IsSpace(s[k])
  {
    if |s| > 0 && IsSpace(s[0]) then 1 + LeadingSpaces(s[1..]) else 0
  }

  /** Number of white-space characters at the end of `s`. */
  function TrailingSpaces(s: string): (k: nat)
    ensures k <= |s|
    ensures forall i :: |s| - k <= i < |s| ==> IsSpace(s[i])
    ensures k < |s| ==> !IsSpace(s[|s| - 1 - k])
  {
    if |s| > 0 && IsSpace(s[|s| - 1]) then 1 + TrailingSpaces(s[..|s| - 1]) else 0
  }

  /** `s.trim()`: the infix of `s` left after removing white space at both ends. */
  function Trim(s: string): (r: string)
    ensures LeadingSpaces(s) + |r| <= |s|
    ensures r == s[LeadingSpaces(s)..LeadingSpaces(s) + |r|]
    ensures forall i :: LeadingSpaces(s) + |r| <= i < |s| ==> IsSpace(s[i])
    ensures r == [] <==> forall i :: 0 <= i < |s| ==> IsSpace(s[i])
    ensures r != [] ==> !IsSpace(r[0]) && !IsSpace(r[|r| - 1])
  {
    var rest := s[LeadingSpaces(s)..];
    rest[..|rest| - TrailingSpaces(rest)]
  }

  predicate IsUpper(c: char) { 'A' <= c <= 'Z' }
  predicate IsLower(c: char) { 'a' <= c <= 'z' }
  predicate IsDigit(c: char) { '0' <= c <= '9' }

  /** `toLowerCase` on one character, for the ASCII letters. */
  function LowerChar(c: char): (d: char)
    ensures !IsUpper(d)
    ensures IsUpper(c) ==> IsLower(d)
    ensures !IsUpper(c) ==> d == c
  {
    if IsUpper(c) then (c as int + 32) as char else c
  }

  /** `s.toLowerCase()`, letter by letter. */
  function ToLower(s: string): (r: string)
    ensures |r| == |s|
    ensures forall i :: 0 <= i < |s| ==> r[i] == LowerChar(s[i])
  {
    if s == [] then [] else [LowerChar(s[0])] + ToLower(s[1..])
  }

  lemma ToLowerIdempotent(s: string)
    ensures ToLower(ToLower(s)) == ToLower(s)
  {
    assert forall i :: 0 <= i < |s| ==> ToLower(ToLower(s))[i] == ToLower(s)[i];
  }

  lemma ToLowerConcat(a: string, b: string)
    ensures ToLower(a + b) == ToLower(a) + ToLower(b)
  {
    assert forall i :: 0 <= i < |a + b| ==> ToLower(a + b)[i] == (ToLower(a) + ToLower(b))[i];
  }

  /** `s.startsWith(prefix)`. */
  predicate StartsWith(s: string, prefix: string): (b: bool)
    ensures b <==> |prefix| <= |s| && forall i :: 0 <= i < |prefix| ==> s[i] == prefix[i]
  {
    |prefix| <= |s| && s[..|prefix|] == prefix
  }

  lemma StartsWithConcat(a: string, b: string)
    ensures StartsWith(a + b, a)
  {
    assert (a + b)[..|a|] == a;
  }

  lemma JoinAssoc(a: string, b: string, sep: char, c: string)
    ensures a + (b + [sep] + c) == (a + b) + [sep] + c
  {
  }

  /** `s.split(sep).pop()`: the text after the last `sep`, or all of `s` when it
      holds no `sep`. */
  function AfterLast(s: string, sep: char): (r: string)
    ensures |r| <= |s|
    ensures sep !in r
    ensures |r| < |s| ==> s[|s| - |r| - 1] == sep
  {
    if s == [] then []
    else if s[|s| - 1] == sep then []
    else AfterLast(s[..|s| - 1], sep) + [s[|s| - 1]]
  }

  /** `split(sep).pop()` is a suffix of the string it splits. */
  lemma {:induction false} AfterLastIsSuffix(s: string, sep: char)
    ensures AfterLast(s, sep) == s[|s| - |AfterLast(s, sep)|..]
  {
    if s != [] && s[|s| - 1] != sep {
      var init := s[..|s| - 1];
      AfterLastIsSuffix(init, sep);
      var r := AfterLast(init, sep);
      assert init[|init| - |r|..] + [s[|s| - 1]] == s[|init| - |r|..];
    }
  }

  /** Whatever precedes `sep`, the text after it is what `AfterLast` returns,
      provided that text holds no `sep` itself. */
  lemma {:induction false} AfterLastOfJoin(p: string, sep: char, e: string)
    requires sep !in e
    ensures AfterLast(p + [sep] + e, sep) == e
  {
    var s := p + [sep] + e;
    if e == [] {
    } else {
      assert s[..|s| - 1] == p + [sep] + e[..|e| - 1];
      assert e[|e| - 1] in e;
      AfterLastOfJoin(p, sep, e[..|e| - 1]);
    }
  }

  /** With no `sep` anywhere, `split(sep).pop()` is the whole string. */
  lemma {:induction false} AfterLastNoSep(s: string, sep: char)
    requires sep !in s
    ensures AfterLast(s, sep) == s
  {
    if s != [] {
      assert s[..|s| - 1] + [s[|s| - 1]] == s;
      assert s[|s| - 1] in s;
      AfterLastNoSep(s[..|s| - 1], sep);
    }
  }

  /** Lower-casing does not move a separator that is not a letter, so it commutes
      with `split(sep).pop()`. */
  lemma {:induction false} AfterLastToLower(s: string, sep: char)
    requires !IsUpper(sep) && !IsLower(sep)
    ensures AfterLast(ToLower(s), sep) == ToLower(AfterLast(s, sep))
  {
    if s != [] {
      var c, init := s[|s| - 1], s[..|s| - 1];
      assert s == init + [c];
      ToLowerConcat(init, [c]);
      var t := ToLower(s);
      assert t[..|t| - 1] == ToLower(init);
      assert t[|t| - 1] == LowerChar(c);
      if c != sep {
        AfterLastToLower(init, sep);
        ToLowerConcat(AfterLast(init, sep), [c]);
      }
    }
  }

  function DigitChar(d: nat): (c: char)
    requires d < 10
    ensures IsDigit(c)
  {
    "0123456789"[d]
  }

  /** The decimal text of `n`, as a template string renders a non-negative integer. */
  function NatToString(n: nat): (r: string)
    ensures |r| >= 1
    ensures forall i :: 0 <= i < |r| ==> IsDigit(r[i])
  {
    if n < 10 then [DigitChar(n)] else NatToString(n / 10) + [DigitChar(n % 10)]
  }

  /** The decimal text is made of digits, with no leading zero. */
  lemma {:induction false} NatToStringDigits(n: nat)
    ensures forall i :: 0 <= i < |NatToString(n)| ==> IsDigit(NatToString(n)[i])
    ensures NatToString(n)[0] == '0' ==> n == 0
  {
    if n >= 10 {
      NatToStringDigits(n / 10);
      var r := NatToString(n);
      assert r == NatToString(n / 10) + [DigitChar(n % 10)];
      assert r[0] == NatToString(n / 10)[0];
    }
  }

  /** Reads a string of decimal digits back into its value (the inverse of
      `NatToString`). */
  function ParseNat(s: string): int {
    if s == [] then 0
    else ParseNat(s[..|s| - 1]) * 10 + (s[|s| - 1] as int - '0' as int)
  }

  lemma {:induction false} ParseNatToString(n: nat)
    ensures ParseNat(NatToString(n)) == n
  {
    if n >= 10 {
      var r := NatToString(n);
      assert r[..|r| - 1] == NatToString(n / 10);
      ParseNatToString(n / 10);
    }
  }
}
