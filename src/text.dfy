/**
 * The string operations of the .NET base library that the validators and resolvers
 * rely on, written out over `seq<char>`. Case mapping is ASCII only and digits are the
 * ASCII digits '0'..'9'; whitespace follows `char.IsWhiteSpace`; `string.Length` counts UTF-16
 * code units.
 */
module Text {

  // ---------------------------------------------------------------------------
  // Characters
  // ---------------------------------------------------------------------------

  predicate IsAsciiDigit(c: char) {
    '0' <= c <= '9'
  }

  predicate IsAsciiLetter(c: char) {
    'a' <= c <= 'z' || 'A' <= c <= 'Z'
  }

  function DigitValue(c: char): (d: nat)
    requires IsAsciiDigit(c)
    ensures d < 10
  {
    c as int - '0' as int
  }

  function DigitChar(d: nat): (c: char)
    requires d < 10
    ensures IsAsciiDigit(c) && DigitValue(c) == d
  {
    ('0' as int + d) as char
  }

  /** `char.IsWhiteSpace`: the Unicode separators (Zs, Zl, Zp) and U+0009..U+000D, U+0085. */
  predicate IsWhiteSpace(c: char) {
    || c == ' ' || '\t' <= c <= '\r' || c == '\U{0085}' || c == '\U{00A0}' || c == '\U{1680}'
    || '\U{2000}' <= c <= '\U{200A}' || c == '\U{2028}' || c == '\U{2029}' || c == '\U{202F}'
    || c == '\U{205F}' || c == '\U{3000}'
  }

  function ToUpperChar(c: char): (u: char)
    ensures 'a' <= c <= 'z' ==> u as int == c as int - 32
    ensures !('a' <= c <= 'z') ==> u == c
  {
    if 'a' <= c <= 'z' then (c as int - 32) as char else c
  }

  function ToLowerChar(c: char): (l: char)
    ensures 'A' <= c <= 'Z' ==> l as int == c as int + 32
    ensures !('A' <= c <= 'Z') ==> l == c
  {
    if 'A' <= c <= 'Z' then (c as int + 32) as char else c
  }

  // ---------------------------------------------------------------------------
  // Strings
  // ---------------------------------------------------------------------------

  /** `string.ToUpper()`, character by character. */
  function ToUpper(s: string): (r: string)
    ensures |r| == |s|
    ensures forall i :: 0 <= i < |s| ==> r[i] == ToUpperChar(s[i])
  {
    seq(|s|, i requires 0 <= i < |s| => ToUpperChar(s[i]))
  }

  /** `string.ToLowerInvariant()`, character by character. */
  function ToLower(s: string): (r: string)
    ensures |r| == |s|
    ensures forall i :: 0 <= i < |s| ==> r[i] == ToLowerChar(s[i])
  {
    seq(|s|, i requires 0 <= i < |s| => ToLowerChar(s[i]))
  }

  lemma ToUpperConcat(a: string, b: string)
    ensures ToUpper(a + b) == ToUpper(a) + ToUpper(b)
  {
  }

  /** A character of the Basic Multilingual Plane, one UTF-16 code unit; the others take a surrogate pair. */
  predicate IsBmp(c: char) {
    c as int < 0x1_0000
  }

  /**
   * `string.Length`: .NET strings are UTF-16, so the length counts code units, and a
   * character above U+FFFF counts twice.
   */
  function Utf16Length(s: string): (n: nat)
    ensures |s| <= n <= 2 * |s|
  {
    if s == [] then 0 else (if IsBmp(s[0]) then 1 else 2) + Utf16Length(s[1..])
  }

  /** The code-unit length is the character count exactly when no character needs a surrogate pair. */
  lemma {:induction false} Utf16LengthIsCount(s: string)
    ensures Utf16Length(s) == |s| <==> forall i :: 0 <= i < |s| ==> IsBmp(s[i])
  {
    if s != [] {
      Utf16LengthIsCount(s[1..]);
      assert forall i :: 1 <= i < |s| ==> s[i] == s[1..][i - 1];
    }
  }

  /** A string of characters above U+FFFF has twice as many code units as characters. */
  lemma {:induction false} Utf16LengthOfSurrogatePairs(s: string)
    requires forall i :: 0 <= i < |s| ==> !IsBmp(s[i])
    ensures Utf16Length(s) == 2 * |s|
  {
    if s != [] {
      assert forall i :: 0 <= i < |s| - 1 ==> s[1..][i] == s[i + 1];
      Utf16LengthOfSurrogatePairs(s[1..]);
    }
  }

  /** Every character is an ASCII digit. */
  predicate AllDigits(s: string) {
    forall i :: 0 <= i < |s| ==> IsAsciiDigit(s[i])
  }

  /** `string.IsNullOrWhiteSpace` for a non-null string: empty, or whitespace only. */
  predicate IsWhiteSpaceOnly(s: string) {
    forall i :: 0 <= i < |s| ==> IsWhiteSpace(s[i])
  }

  /** `string.Replace(c.ToString(), "")`: every occurrence of `c` removed. */
  function Remove(s: string, c: char): (r: string)
    ensures |r| <= |s|
    ensures c !in r
    ensures forall x :: x in r <==> x in s && x != c
  {
    if s == [] then []
    else (if s[0] == c then [] else [s[0]]) + Remove(s[1..], c)
  }

  lemma {:induction false} RemoveConcat(a: string, b: string, c: char)
    ensures Remove(a + b, c) == Remove(a, c) + Remove(b, c)
  {
    if a == [] {
      assert a + b == b;
    } else {
      assert (a + b)[1..] == a[1..] + b;
      RemoveConcat(a[1..], b, c);
    }
  }

  /** Removing a character that does not occur leaves the string as it is. */
  lemma {:induction false} RemoveAbsent(s: string, c: char)
    requires c !in s
    ensures Remove(s, c) == s
  {
    if s != [] {
      RemoveAbsent(s[1..], c);
    }
  }

  /** `string.Contains(needle)` (ordinal): `needle` occurs as a contiguous part of `s`. */
  predicate Contains(s: string, needle: string) {
    exists i :: 0 <= i <= |s| - |needle| && OccursAt(s, needle, i)
  }

  /** `needle` occurs in `s` starting at index `i`. */
  predicate OccursAt(s: string, needle: string, i: int) {
    0 <= i && i + |needle| <= |s| && s[i..i + |needle|] == needle
  }

  /** `s.Contains(needle, StringComparison.OrdinalIgnoreCase)`. */
  predicate ContainsIgnoreCase(s: string, needle: string) {
    Contains(ToUpper(s), ToUpper(needle))
  }

  /** `StringComparer.OrdinalIgnoreCase.Equals`. */
  predicate EqualsIgnoreCase(a: string, b: string) {
    ToUpper(a) == ToUpper(b)
  }

  // ---------------------------------------------------------------------------
  // Split(' ', StringSplitOptions.RemoveEmptyEntries)
  // ---------------------------------------------------------------------------

  /** The longest prefix of `s` that holds no space. */
  function Word(s: string): (w: string)
    ensures |w| <= |s| && w == s[..|w|]
    ensures ' ' !in w
    ensures |w| < |s| ==> s[|w|] == ' '
    ensures s != [] && s[0] != ' ' ==> w != []
  {
    if s == [] || s[0] == ' ' then [] else [s[0]] + Word(s[1..])
  }

  /**
   * `s.Split(new[] { ' ' }, StringSplitOptions.RemoveEmptyEntries)`: the maximal
   * space-free runs of `s`, left to right. Only ' ' separates; tabs and other
   * whitespace belong to the parts.
   */
  function Split(s: string): (parts: seq<string>)
    ensures forall k :: 0 <= k < |parts| ==> parts[k] != [] && ' ' !in parts[k]
    ensures |parts| <= |s|
    decreases |s|
  {
    if s == [] then []
    else if s[0] == ' ' then Split(s[1..])
    else
      var w := Word(s);
      [w] + Split(s[|w|..])
  }

  /** Split yields no part exactly when the string consists of spaces only. */
  lemma {:induction false} SplitEmptyIffSpaces(s: string)
    ensures Split(s) == [] <==> forall i :: 0 <= i < |s| ==> s[i] == ' '
  {
    if s != [] && s[0] == ' ' {
      SplitEmptyIffSpaces(s[1..]);
      assert forall i :: 1 <= i < |s| ==> s[i] == s[1..][i - 1];
    }
  }

  /** A leading space never changes the parts. */
  lemma LeadingSpace(s: string)
    ensures Split([' '] + s) == Split(s)
  {
    assert ([' '] + s)[1..] == s;
  }

  /** A trailing space never changes the parts. */
  lemma {:induction false} TrailingSpace(s: string)
    ensures Split(s + [' ']) == Split(s)
    decreases |s|
  {
    if s == [] {
      assert Split([' ']) == Split([]);
    } else if s[0] == ' ' {
      assert (s + [' '])[1..] == s[1..] + [' '];
      TrailingSpace(s[1..]);
    } else {
      var w := Word(s);
      WordOfExtension(s, [' ']);
      assert Word(s + [' ']) == w;
      assert (s + [' '])[|w|..] == s[|w|..] + [' '];
      TrailingSpace(s[|w|..]);
    }
  }

  /** A space directly before another space never changes the parts. */
  lemma DoubledSpace(a: string, b: string)
    ensures Split(a + [' ', ' '] + b) == Split(a + [' '] + b)
  {
    assert a + [' ', ' '] + b == a + ([' '] + ([' '] + b));
    assert a + [' '] + b == a + ([' '] + b);
    SpaceBeforeSpace(a, [' '] + b);
  }

  lemma {:induction false} SpaceBeforeSpace(a: string, rest: string)
    requires rest != [] && rest[0] == ' '
    ensures Split(a + ([' '] + rest)) == Split(a + rest)
    decreases |a|
  {
    var two := [' '] + rest;
    if a == [] {
      assert a + two == two && a + rest == rest;
      assert two[1..] == rest;
    } else if a[0] == ' ' {
      assert (a + two)[1..] == a[1..] + two;
      assert (a + rest)[1..] == a[1..] + rest;
      SpaceBeforeSpace(a[1..], rest);
    } else {
      var w := Word(a);
      SplitAfterWord(a, two);
      SplitAfterWord(a, rest);
      SpaceBeforeSpace(a[|w|..], rest);
    }
  }

  /** A string that starts with a word splits into that word and the parts of what follows it. */
  lemma SplitAfterWord(a: string, rest: string)
    requires a != [] && a[0] != ' ' && rest != [] && rest[0] == ' '
    ensures |Word(a)| <= |a|
    ensures Split(a + rest) == [Word(a)] + Split(a[|Word(a)|..] + rest)
  {
    var w := Word(a);
    WordOfExtension(a, rest);
    assert (a + rest)[0] == a[0];
    assert (a + rest)[|w|..] == a[|w|..] + rest;
  }

  /** The first word of `s` is unchanged by text appended after a space. */
  lemma {:induction false} WordOfExtension(s: string, t: string)
    requires (t != [] && t[0] == ' ') || Word(s) != s
    ensures Word(s + t) == Word(s)
    decreases |s|
  {
    if s != [] && s[0] != ' ' {
      assert (s + t)[1..] == s[1..] + t;
      WordOfExtension(s[1..], t);
    } else if s == [] {
      assert s + t == t;
    }
  }

  /** A space-free string is its own first word. */
  lemma {:induction false} WordOfSpaceFree(w: string)
    requires ' ' !in w
    ensures Word(w) == w
  {
    if w != [] {
      WordOfSpaceFree(w[1..]);
    }
  }

  /** A non-empty, space-free string splits into itself alone. */
  lemma SplitOfWord(w: string)
    requires w != [] && ' ' !in w
    ensures Split(w) == [w]
  {
    WordOfSpaceFree(w);
    assert w[|w|..] == [];
  }

  /** Splitting distributes over a joining space. */
  lemma {:induction false} SplitAroundSpace(a: string, b: string)
    ensures Split(a + [' '] + b) == Split(a) + Split(b)
    decreases |a|
  {
    if a == [] {
      assert a + [' '] + b == [' '] + b;
      LeadingSpace(b);
    } else if a[0] == ' ' {
      assert (a + [' '] + b)[1..] == a[1..] + [' '] + b;
      SplitAroundSpace(a[1..], b);
    } else {
      var w := Word(a);
      WordOfExtension(a, [' '] + b);
      assert a + [' '] + b == a + ([' '] + b);
      assert (a + [' '] + b)[|w|..] == a[|w|..] + [' '] + b;
      SplitAroundSpace(a[|w|..], b);
    }
  }

  /** The first character of the first part is the first non-space character. */
  lemma {:induction false} SplitFirst(s: string, i: nat)
    requires i < |s| && s[i] != ' '
    requires forall j :: 0 <= j < i ==> s[j] == ' '
    ensures Split(s) != [] && Split(s)[0][0] == s[i]
    decreases i
  {
    if i > 0 {
      SplitFirst(s[1..], i - 1);
    }
  }

  // ---------------------------------------------------------------------------
  // Number formatting and joining
  // ---------------------------------------------------------------------------

  /** The decimal digits of `n` without leading zeros (`int.ToString()` for n >= 0). */
  function NatToString(n: nat): (s: string)
    ensures s != [] && forall i :: 0 <= i < |s| ==> IsAsciiDigit(s[i])
  {
    if n < 10 then [DigitChar(n)] else NatToString(n / 10) + [DigitChar(n % 10)]
  }

  /** `int.ToString()` in the invariant culture. */
  function IntToString(n: int): (s: string)
    ensures s != [] && forall i :: 0 <= i < |s| ==> IsAsciiDigit(s[i]) || s[i] == '-'
  {
    if n < 0 then "-" + NatToString(-n) else NatToString(n)
  }

  /** `string.Join(sep, parts)`. */
  function Join(sep: string, parts: seq<string>): string {
    if parts == [] then ""
    else if |parts| == 1 then parts[0]
    else parts[0] + sep + Join(sep, parts[1..])
  }
}
