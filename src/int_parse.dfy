/**
 * `int.TryParse(string, out int)` with `NumberStyles.Integer` and the invariant
 * culture's signs: white space U+0009..U+000D and U+0020 may surround the number, one
 * leading '+' or '-' is allowed, then one or more ASCII digits; a null string, any other
 * character or a value outside the C# `int` range makes it fail.
 */
module IntParse {
  import opened Wrappers
  import opened Text
  import opened Numerics

  /** The white space `NumberStyles.AllowLeadingWhite` and `AllowTrailingWhite` skip. */
  predicate IsNumberWhite(c: char) {
    c == ' ' || '\t' <= c <= '\r'
  }

  function TrimStart(s: string): (r: string)
    ensures |r| <= |s| && r == s[|s| - |r|..]
    ensures r == [] || !IsNumberWhite(r[0])
  {
    if |s| > 0 && IsNumberWhite(s[0]) then TrimStart(s[1..]) else s
  }

  function TrimEnd(s: string): (r: string)
    ensures |r| <= |s| && r == s[..|r|]
    ensures r == [] || !IsNumberWhite(r[|r| - 1])
  {
    if |s| > 0 && IsNumberWhite(s[|s| - 1]) then TrimEnd(s[..|s| - 1]) else s
  }

  /** The value of a run of decimal digits, most significant first. */
  function DigitsValue(s: string): nat
    requires AllDigits(s)
  {
    if |s| == 0 then 0 else DigitsValue(s[..|s| - 1]) * 10 + DigitValue(s[|s| - 1])
  }

  /** `int.TryParse`: the value when it succeeds, `None` when it returns false. */
  function ParseInt32(s: Option<string>): (r: Option<int32>)
    ensures s.None? ==> r.None?
  {
    if s.None? then None else ParseTrimmed(TrimEnd(TrimStart(s.value)))
  }

  /** What is left once the white space is trimmed: an optional sign, then digits that fit in an `int`. */
  function ParseTrimmed(t: string): Option<int32> {
    var negative := |t| > 0 && t[0] == '-';
    var digits := if |t| > 0 && (t[0] == '-' || t[0] == '+') then t[1..] else t;
    if |digits| == 0 || !AllDigits(digits) then None
    else
      var v: int := if negative then -(DigitsValue(digits) as int) else DigitsValue(digits);
      if -0x8000_0000 <= v < 0x8000_0000 then Some(v as int32) else None
  }

  /** The digits `n.ToString()` writes are read back as `n`. */
  lemma {:induction false} DigitsValueOfNatToString(n: nat)
    ensures AllDigits(NatToString(n)) && DigitsValue(NatToString(n)) == n
  {
    var s := NatToString(n);
    if n >= 10 {
      DigitsValueOfNatToString(n / 10);
      assert s[..|s| - 1] == NatToString(n / 10);
    }
  }

  /** A string whose trimmed core is a run of digits is parsed as those digits. */
  lemma ParseOfTrimmed(s: string, digits: string)
    requires TrimEnd(TrimStart(s)) == digits && digits != [] && AllDigits(digits)
    ensures ParseInt32(Some(s)) == if DigitsValue(digits) < 0x8000_0000 then Some(DigitsValue(digits) as int32) else None
  {
    assert IsAsciiDigit(digits[0]);
    assert ParseInt32(Some(s)) == ParseTrimmed(digits);
  }

  /** A string with neither white space nor a sign at its ends is parsed as its digits. */
  lemma ParseOfDigits(s: string)
    requires s != [] && AllDigits(s)
    ensures ParseInt32(Some(s)) == if DigitsValue(s) < 0x8000_0000 then Some(DigitsValue(s) as int32) else None
  {
    assert TrimStart(s) == s;
    assert TrimEnd(s) == s;
    ParseOfTrimmed(s, s);
  }

  /** What `ToString()` writes for a non-negative number parses back to it exactly when it fits in an `int`. */
  lemma ParseNatToString(n: nat)
    ensures ParseInt32(Some(NatToString(n))) == if n < 0x8000_0000 then Some(n as int32) else None
  {
    DigitsValueOfNatToString(n);
    ParseOfDigits(NatToString(n));
  }

  // ---------------------------------------------------------------------------
  // Which strings parse, and to what
  // ---------------------------------------------------------------------------

  predicate AllNumberWhite(s: string) {
    forall i :: 0 <= i < |s| ==> IsNumberWhite(s[i])
  }

  /**
   * `s` is laid out as `int.TryParse` accepts it: white space, an optional sign,
   * one or more digits, white space.
   */
  predicate NumberLayout(s: string, pre: string, sign: string, digits: string, post: string) {
    && s == pre + sign + digits + post
    && AllNumberWhite(pre) && AllNumberWhite(post)
    && (sign == "" || sign == "+" || sign == "-")
    && digits != [] && AllDigits(digits)
  }

  /** The value the sign and the digits denote. */
  function SignedValue(sign: string, digits: string): int
    requires AllDigits(digits)
  {
    if sign == "-" then -(DigitsValue(digits) as int) else DigitsValue(digits)
  }

  /**
   * `int.TryParse` succeeds with `v` exactly when the string is white space, an optional
   * sign, digits and white space, and the sign and digits denote `v`; so it fails on
   * every other string and on every value outside the `int` range.
   */
  lemma ParseInt32Iff(s: string, v: int32)
    ensures ParseInt32(Some(s)) == Some(v) <==>
      exists pre, sign, digits, post :: NumberLayout(s, pre, sign, digits, post) && SignedValue(sign, digits) == v as int
  {
    if ParseInt32(Some(s)) == Some(v) {
      var pre, sign, digits, post := LayoutOfParse(s);
    }
    if exists pre, sign, digits, post :: NumberLayout(s, pre, sign, digits, post) && SignedValue(sign, digits) == v as int {
      var pre, sign, digits, post :| NumberLayout(s, pre, sign, digits, post) && SignedValue(sign, digits) == v as int;
      ParseOfLayout(s, pre, sign, digits, post);
    }
  }

  /** A string that parses is laid out as a number whose sign and digits denote the value. */
  lemma LayoutOfParse(s: string) returns (pre: string, sign: string, digits: string, post: string)
    requires ParseInt32(Some(s)).Some?
    ensures NumberLayout(s, pre, sign, digits, post)
    ensures SignedValue(sign, digits) == ParseInt32(Some(s)).value as int
  {
    var a := TrimStart(s);
    var t := TrimEnd(a);
    assert ParseInt32(Some(s)) == ParseTrimmed(t);
    TrimStartStripsWhite(s);
    TrimEndStripsWhite(a);
    pre, post := s[..|s| - |a|], a[|t|..];
    sign, digits := SignOfTrimmed(t);
    SplitAt(s, |s| - |a|);
    SplitAt(a, |t|);
    Glue(s, pre, a, t, post, sign, digits);
  }

  lemma SplitAt(x: string, k: nat)
    requires k <= |x|
    ensures x == x[..k] + x[k..]
  {
  }

  lemma Glue(s: string, pre: string, a: string, t: string, post: string, sign: string, digits: string)
    requires s == pre + a && a == t + post && t == sign + digits
    ensures s == pre + sign + digits + post
  {
  }

  /** The trimmed text that parses splits into its sign and its digits. */
  lemma SignOfTrimmed(t: string) returns (sign: string, digits: string)
    requires ParseTrimmed(t).Some?
    ensures t == sign + digits && (sign == "" || sign == "+" || sign == "-")
    ensures digits != [] && AllDigits(digits)
    ensures SignedValue(sign, digits) == ParseTrimmed(t).value as int
  {
    sign := if t[0] == '-' || t[0] == '+' then [t[0]] else [];
    digits := t[|sign|..];
    assert t == sign + digits;
  }

  /** A string laid out as a number parses to the value of its sign and digits, when that fits. */
  lemma ParseOfLayout(s: string, pre: string, sign: string, digits: string, post: string)
    requires NumberLayout(s, pre, sign, digits, post)
    ensures var v := SignedValue(sign, digits);
      ParseInt32(Some(s)) == if -0x8000_0000 <= v < 0x8000_0000 then Some(v as int32) else None
  {
    TrimsToCore(s, pre, sign + digits, post, digits);
    ParseOfSigned(sign, digits);
  }

  lemma TrimsToCore(s: string, pre: string, core: string, post: string, digits: string)
    requires s == pre + core + post && AllNumberWhite(pre) && AllNumberWhite(post)
    requires digits != [] && AllDigits(digits)
    requires core == digits || core == "+" + digits || core == "-" + digits
    ensures TrimEnd(TrimStart(s)) == core
  {
    assert !IsNumberWhite(core[0]) by {
      if core == digits { assert IsAsciiDigit(digits[0]); }
    }
    assert core[|core| - 1] == digits[|digits| - 1];
    assert IsAsciiDigit(digits[|digits| - 1]);
    assert s == pre + (core + post);
    TrimStartOfWhite(pre, core + post);
    TrimEndOfWhite(core, post);
  }

  lemma ParseOfSigned(sign: string, digits: string)
    requires sign == "" || sign == "+" || sign == "-"
    requires digits != [] && AllDigits(digits)
    ensures var v := SignedValue(sign, digits);
      ParseTrimmed(sign + digits) == if -0x8000_0000 <= v < 0x8000_0000 then Some(v as int32) else None
  {
    var t := sign + digits;
    if sign == "" {
      assert t == digits && IsAsciiDigit(t[0]);
    } else {
      assert t[1..] == digits;
    }
  }

  lemma {:induction false} TrimStartOfWhite(pre: string, rest: string)
    requires AllNumberWhite(pre) && rest != [] && !IsNumberWhite(rest[0])
    ensures TrimStart(pre + rest) == rest
    decreases |pre|
  {
    if pre == [] {
      assert pre + rest == rest;
    } else {
      assert (pre + rest)[1..] == pre[1..] + rest;
      TrimStartOfWhite(pre[1..], rest);
    }
  }

  lemma {:induction false} TrimEndOfWhite(core: string, post: string)
    requires AllNumberWhite(post) && core != [] && !IsNumberWhite(core[|core| - 1])
    ensures TrimEnd(core + post) == core
    decreases |post|
  {
    if post == [] {
      assert core + post == core;
    } else {
      assert (core + post)[..|core + post| - 1] == core + post[..|post| - 1];
      TrimEndOfWhite(core, post[..|post| - 1]);
    }
  }

  lemma {:induction false} TrimStartStripsWhite(s: string)
    ensures AllNumberWhite(s[..|s| - |TrimStart(s)|])
  {
    if |s| > 0 && IsNumberWhite(s[0]) {
      TrimStartStripsWhite(s[1..]);
      assert s[..|s| - |TrimStart(s)|] == [s[0]] + s[1..][..|s| - 1 - |TrimStart(s[1..])|];
    }
  }

  lemma {:induction false} TrimEndStripsWhite(s: string)
    ensures AllNumberWhite(s[|TrimEnd(s)|..])
  {
    if |s| > 0 && IsNumberWhite(s[|s| - 1]) {
      var init := s[..|s| - 1];
      TrimEndStripsWhite(init);
      assert s[|TrimEnd(s)|..] == init[|TrimEnd(init)|..] + [s[|s| - 1]];
    }
  }

  /** What `ToString()` writes for any `int`, negative ones included, parses back to it. */
  lemma ParseIntToString(v: int32)
    ensures ParseInt32(Some(IntToString(v as int))) == Some(v)
  {
    var n: nat := if v < 0 then -(v as int) else v as int;
    var sign := if v < 0 then "-" else "";
    var text := IntToString(v as int);
    DigitsValueOfNatToString(n);
    assert text == [] + sign + NatToString(n) + [];
    assert SignedValue(sign, NatToString(n)) == v as int;
    ParseOfLayout(text, [], sign, NatToString(n), []);
  }

  /** A null line, an empty line and a lone sign are not numbers. */
  lemma NotNumbers()
    ensures ParseInt32(None) == None
    ensures ParseInt32(Some("")) == None
    ensures ParseInt32(Some("-")) == None
  {
    assert TrimStart("") == "" && TrimEnd("") == "";
    var minus := "-";
    assert !IsNumberWhite(minus[0]);
    assert TrimStart(minus) == minus && TrimEnd(minus) == minus;
    assert minus[1..] == [];
  }

  /** Nor is a word. */
  lemma WordNotNumber()
    ensures ParseInt32(Some("two")) == None
  {
    var word := "two";
    assert !IsNumberWhite(word[0]) && !IsNumberWhite(word[2]);
    assert TrimStart(word) == word && TrimEnd(word) == word;
    assert !IsAsciiDigit(word[0]);
  }

  /** Surrounding blanks are skipped ... */
  lemma ParsePadded()
    ensures ParseInt32(Some(" 2 ")) == Some(2)
  {
    PaddedTrimsToDigit();
    DigitValueOfTwo();
    ParseOfTrimmed(" 2 ", "2");
  }

  lemma PaddedTrimsToDigit()
    ensures TrimEnd(TrimStart(" 2 ")) == "2"
  {
    var padded, inner, digit := " 2 ", "2 ", "2";
    assert TrimStart(padded) == inner by {
      assert IsNumberWhite(padded[0]) && padded[1..] == inner;
      assert !IsNumberWhite(inner[0]);
    }
    assert TrimEnd(inner) == digit by {
      assert IsNumberWhite(inner[1]) && inner[..1] == digit;
      assert !IsNumberWhite(digit[0]);
    }
  }

  lemma DigitValueOfTwo()
    ensures AllDigits("2") && DigitsValue("2") == 2
  {
    assert "2"[..0] == [];
  }

  /** ... and a plus sign is accepted. */
  lemma ParseSigned()
    ensures ParseInt32(Some("+3")) == Some(3)
  {
    var signed := "+3";
    assert !IsNumberWhite(signed[0]) && !IsNumberWhite(signed[1]);
    assert TrimStart(signed) == signed;
    assert TrimEnd(signed) == signed;
    assert signed[1..] == "3";
    assert DigitsValue("3") == 3 by {
      assert "3"[..0] == [];
    }
  }
}
