/**
 * `BeAValidIsbn` of OderManagementAPI
 * (OderManagementAPI/Features/Order/Validators/CreateOrderProfileRequestValidator.cs):
 * the ISBN check-character rules of ISO 2108. Hyphens and spaces are removed and the
 * rest upper-cased; ten characters are an ISBN-10 (weights 1..9 on the first nine
 * digits, modulo 11, 'X' for ten), thirteen an ISBN-13 (EAN-13 weights 1 and 3,
 * modulo 10). Digits are the ASCII digits.
 */
module OderIsbn {
  import opened Wrappers
  import opened Text

  // ---------------------------------------------------------------------------
  // The rules
  // ---------------------------------------------------------------------------

  /** `isbn.Replace("-", "").Replace(" ", "").ToUpper()`. */
  function Clean(isbn: string): (c: string)
    ensures |c| <= |isbn|
  {
    ToUpper(Remove(Remove(isbn, '-'), ' '))
  }

  /** The first `n` characters of `s` are digits. */
  predicate DigitsUpTo(s: string, n: nat)
    requires n <= |s|
  {
    forall i :: 0 <= i < n ==> IsAsciiDigit(s[i])
  }

  /** The ISBN-10 weighted sum of the first `n` digits: the digit at index i weighs i + 1. */
  function Sum10(s: string, n: nat): (sum: nat)
    requires n <= |s| && DigitsUpTo(s, n)
  {
    if n == 0 then 0 else Sum10(s, n - 1) + n * DigitValue(s[n - 1])
  }

  /** The ISBN-13 weight of index i: 1 at even indices, 3 at odd ones. */
  function Weight13(i: nat): (w: nat)
    ensures w == 1 || w == 3
  {
    if i % 2 == 0 then 1 else 3
  }

  /** The ISBN-13 weighted sum of the first `n` digits. */
  function Sum13(s: string, n: nat): (sum: nat)
    requires n <= |s| && DigitsUpTo(s, n)
  {
    if n == 0 then 0 else Sum13(s, n - 1) + DigitValue(s[n - 1]) * Weight13(n - 1)
  }

  /** The ISBN-13 check digit of a weighted sum. */
  function CheckDigit13(sum: int): (d: int)
    ensures 0 <= d < 10
  {
    (10 - sum % 10) % 10
  }

  /** A cleaned ten-character ISBN whose last character matches the weighted sum modulo 11. */
  predicate ValidIsbn10(c: string) {
    && |c| == 10
    && DigitsUpTo(c, 9)
    && if c[9] == 'X' then Sum10(c, 9) % 11 == 10
       else IsAsciiDigit(c[9]) && Sum10(c, 9) % 11 == DigitValue(c[9])
  }

  /** A cleaned thirteen-digit ISBN whose last digit is the EAN-13 check digit. */
  predicate ValidIsbn13(c: string) {
    |c| == 13 && DigitsUpTo(c, 13) && CheckDigit13(Sum13(c, 12)) == DigitValue(c[12])
  }

  /** What `BeAValidIsbn` accepts: a non-blank string whose cleaned form is a valid ISBN. */
  predicate IsbnValid(isbn: Option<string>) {
    isbn.Some? && !IsWhiteSpaceOnly(isbn.value)
    && (ValidIsbn10(Clean(isbn.value)) || ValidIsbn13(Clean(isbn.value)))
  }

  /** `BeAValidIsbn`, with its two summing loops. */
  method BeAValidIsbn(isbn: Option<string>) returns (ok: bool)
    ensures ok <==> IsbnValid(isbn)
  {
    if isbn.None? || IsWhiteSpaceOnly(isbn.value) {
      return false;
    }
    var s := Clean(isbn.value);
    if |s| == 10 {
      if !DigitsUpTo(s, 9) {
        return false;
      }
      var sum := 0;
      for i := 0 to 9
        invariant sum == Sum10(s, i)
      {
        sum := sum + (i + 1) * (s[i] as int - '0' as int);
      }
      var lastChar := s[9];
      var checksum := sum % 11;
      if lastChar == 'X' {
        return checksum == 10;
      }
      if IsAsciiDigit(lastChar) {
        return checksum == lastChar as int - '0' as int;
      }
      return false;
    } else if |s| == 13 {
      if !DigitsUpTo(s, 13) {
        return false;
      }
      var sum := 0;
      for i := 0 to 12
        invariant sum == Sum13(s, i)
      {
        sum := sum + (s[i] as int - '0' as int) * (if i % 2 == 0 then 1 else 3);
      }
      var checksum := (10 - sum % 10) % 10;
      return checksum == s[12] as int - '0' as int;
    }
    return false;
  }

  // ---------------------------------------------------------------------------
  // Cleaning
  // ---------------------------------------------------------------------------

  lemma CleanConcat(a: string, b: string)
    ensures Clean(a + b) == Clean(a) + Clean(b)
  {
    RemoveConcat(a, b, '-');
    RemoveConcat(Remove(a, '-'), Remove(b, '-'), ' ');
    ToUpperConcat(Remove(Remove(a, '-'), ' '), Remove(Remove(b, '-'), ' '));
  }

  /** A whitespace-only string cleans to something that starts with no digit, so no ISBN. */
  lemma WhiteSpaceCleansToNoIsbn(s: string)
    requires IsWhiteSpaceOnly(s)
    ensures !ValidIsbn10(Clean(s)) && !ValidIsbn13(Clean(s))
  {
    var r := Remove(Remove(s, '-'), ' ');
    if r != [] {
      assert r[0] in s;
      assert IsWhiteSpace(r[0]);
      assert Clean(s)[0] == r[0];
    }
  }

  /** The whitespace guard decides nothing the check characters would not decide anyway. */
  lemma WhiteSpaceGuardRedundant(s: string)
    ensures IsbnValid(Some(s)) <==> ValidIsbn10(Clean(s)) || ValidIsbn13(Clean(s))
  {
    if IsWhiteSpaceOnly(s) {
      WhiteSpaceCleansToNoIsbn(s);
    }
  }

  /** A missing or blank ISBN is rejected, and so is any whose cleaned length is not 10 or 13. */
  lemma RejectedShapes(isbn: Option<string>)
    ensures isbn.None? ==> !IsbnValid(isbn)
    ensures isbn.Some? && IsWhiteSpaceOnly(isbn.value) ==> !IsbnValid(isbn)
    ensures isbn.Some? && |Clean(isbn.value)| != 10 && |Clean(isbn.value)| != 13 ==> !IsbnValid(isbn)
  {
  }

  /** Cleaning drops a hyphen or a space wherever it stands. */
  lemma CleanDropsSeparator(a: string, b: string, sep: char)
    requires sep == '-' || sep == ' '
    ensures Clean(a + [sep] + b) == Clean(a + b)
  {
    assert [sep][1..] == [];
    var once := Remove([sep], '-');
    assert once == if sep == '-' then [] else [sep];
    if sep == ' ' {
      assert once[1..] == [];
    }
    assert Remove(once, ' ') == [];
    assert Clean([sep]) == [];
    CleanConcat(a + [sep], b);
    CleanConcat(a, [sep]);
    CleanConcat(a, b);
    assert Clean(a) + [] == Clean(a);
  }

  /** Inserting a hyphen or a space anywhere never changes the verdict. */
  lemma SeparatorInvariance(a: string, b: string, sep: char)
    requires sep == '-' || sep == ' '
    ensures IsbnValid(Some(a + [sep] + b)) == IsbnValid(Some(a + b))
  {
    CleanDropsSeparator(a, b, sep);
    WhiteSpaceGuardRedundant(a + [sep] + b);
    WhiteSpaceGuardRedundant(a + b);
  }

  /** A lowercase 'x' anywhere counts as an uppercase 'X'. */
  lemma LowercaseXIsX(a: string, b: string)
    ensures IsbnValid(Some(a + ['x'] + b)) == IsbnValid(Some(a + ['X'] + b))
  {
    CleanOfLowercaseX(a, b);
    WhiteSpaceGuardRedundant(a + ['x'] + b);
    WhiteSpaceGuardRedundant(a + ['X'] + b);
  }

  lemma CleanOfLowercaseX(a: string, b: string)
    ensures Clean(a + ['x'] + b) == Clean(a + ['X'] + b)
  {
    CleanAround(a, 'x', b);
    CleanAround(a, 'X', b);
    CleanOfCheckChar();
  }

  /** Cleaning works on either side of one character separately. */
  lemma CleanAround(a: string, c: char, b: string)
    ensures Clean(a + [c] + b) == Clean(a) + Clean([c]) + Clean(b)
  {
    CleanConcat(a + [c], b);
    CleanConcat(a, [c]);
  }

  lemma CleanOfCheckChar()
    ensures Clean(['x']) == ['X'] && Clean(['X']) == ['X']
  {
    assert Remove(['x'], '-') == ['x'];
    assert Remove(['X'], '-') == ['X'];
  }

  // ---------------------------------------------------------------------------
  // Exactly one check character
  // ---------------------------------------------------------------------------

  /** Sums over equal prefixes are equal. */
  lemma {:induction false} SumsOfEqualPrefixes(s: string, t: string, n: nat)
    requires n <= |s| && n <= |t| && s[..n] == t[..n] && DigitsUpTo(s, n)
    ensures DigitsUpTo(t, n)
    ensures Sum10(s, n) == Sum10(t, n) && Sum13(s, n) == Sum13(t, n)
  {
    assert forall i :: 0 <= i < n ==> s[i] == s[..n][i] == t[..n][i] == t[i];
    if n > 0 {
      assert s[..n - 1] == s[..n][..n - 1];
      assert t[..n - 1] == t[..n][..n - 1];
      SumsOfEqualPrefixes(s, t, n - 1);
    }
  }

  /** The check character of a nine-digit body: the weighted sum modulo 11, 'X' for ten. */
  function CheckChar10(body: string): (c: char)
    requires |body| == 9 && DigitsUpTo(body, 9)
  {
    var m := Sum10(body, 9) % 11;
    if m == 10 then 'X' else DigitChar(m)
  }

  /** Every nine-digit body has exactly one check character. */
  lemma Isbn10ExactlyOneCheckChar(body: string, c: char)
    requires |body| == 9 && DigitsUpTo(body, 9)
    ensures ValidIsbn10(body + [c]) <==> c == CheckChar10(body)
  {
    SumsOfEqualPrefixes(body, body + [c], 9);
  }

  /** The check digit of a twelve-digit body. */
  function CheckChar13(body: string): (c: char)
    requires |body| == 12 && DigitsUpTo(body, 12)
  {
    DigitChar(CheckDigit13(Sum13(body, 12)))
  }

  /** Every twelve-digit body has exactly one check digit. */
  lemma Isbn13ExactlyOneCheckChar(body: string, c: char)
    requires |body| == 12 && DigitsUpTo(body, 12)
    ensures ValidIsbn13(body + [c]) <==> c == CheckChar13(body)
  {
    var s := body + [c];
    SumsOfEqualPrefixes(body, s, 12);
    if c == CheckChar13(body) {
      assert DigitsUpTo(s, 13) by {
        forall i | 0 <= i < 13 ensures IsAsciiDigit(s[i]) {
          if i < 12 { assert s[i] == body[i]; }
        }
      }
    }
  }

  // ---------------------------------------------------------------------------
  // Single-digit errors are detected
  // ---------------------------------------------------------------------------

  /** `t` is `s` with the digit at `k` replaced by another digit. */
  predicate OneDigitChanged(s: string, t: string, k: nat) {
    && |s| == |t| && k < |s|
    && IsAsciiDigit(s[k]) && IsAsciiDigit(t[k]) && s[k] != t[k]
    && forall j :: 0 <= j < |s| && j != k ==> t[j] == s[j]
  }

  lemma Distribute(w: int, x: int, y: int)
    ensures w * y - w * x == w * (y - x) == y * w - x * w
  {
  }

  /** Changing one digit changes the ISBN-10 sum by that digit's weight times the difference. */
  lemma {:induction false} Sum10AfterOneChange(s: string, t: string, k: nat, n: nat)
    requires OneDigitChanged(s, t, k) && n <= |s| && DigitsUpTo(s, n)
    ensures DigitsUpTo(t, n)
    ensures Sum10(t, n) - Sum10(s, n) == if k < n then (k + 1) * (DigitValue(t[k]) - DigitValue(s[k])) else 0
  {
    if n > 0 {
      Sum10AfterOneChange(s, t, k, n - 1);
      var x: int, y: int := DigitValue(s[n - 1]), DigitValue(t[n - 1]);
      assert Sum10(t, n) - Sum10(s, n) == Sum10(t, n - 1) - Sum10(s, n - 1) + (n * y - n * x);
      if n - 1 == k {
        Distribute(n, x, y);
      } else {
        assert t[n - 1] == s[n - 1];
      }
    }
  }

  /** Changing one digit changes the ISBN-13 sum by that digit's weight times the difference. */
  lemma {:induction false} Sum13AfterOneChange(s: string, t: string, k: nat, n: nat)
    requires OneDigitChanged(s, t, k) && n <= |s| && DigitsUpTo(s, n)
    ensures DigitsUpTo(t, n)
    ensures Sum13(t, n) - Sum13(s, n) == if k < n then Weight13(k) * (DigitValue(t[k]) - DigitValue(s[k])) else 0
  {
    if n > 0 {
      Sum13AfterOneChange(s, t, k, n - 1);
      var x: int, y: int, w: int := DigitValue(s[n - 1]), DigitValue(t[n - 1]), Weight13(n - 1);
      assert Sum13(t, n) - Sum13(s, n) == Sum13(t, n - 1) - Sum13(s, n - 1) + (y * w - x * w);
      if n - 1 == k {
        Distribute(w, x, y);
      } else {
        assert t[n - 1] == s[n - 1];
      }
    }
  }

  /** Numbers whose difference is no multiple of 11 leave different remainders. */
  lemma DifferentRemainders11(x: int, y: int)
    requires (x - y) % 11 != 0
    ensures x % 11 != y % 11
  {
  }

  /** Numbers whose difference is no multiple of 10 leave different remainders. */
  lemma DifferentRemainders10(x: int, y: int)
    requires (x - y) % 10 != 0
    ensures x % 10 != y % 10
  {
  }

  /** Sums with different last digits have different check digits. */
  lemma CheckDigitsDiffer(x: int, y: int)
    requires x % 10 != y % 10
    ensures CheckDigit13(x) != CheckDigit13(y)
  {
  }

  /** 11 is prime: no weight 1..9 times a non-zero digit difference is a multiple of 11. */
  lemma NoMultipleOf11(w: int, d: int)
    requires 1 <= w <= 9 && -9 <= d <= 9 && d != 0
    ensures (w * d) % 11 != 0
  {
    var p := w * d;
    if w == 1 { assert p == d; }
    else if w == 2 { assert p == 2 * d; }
    else if w == 3 { assert p == 3 * d; }
    else if w == 4 { assert p == 4 * d; }
    else if w == 5 { assert p == 5 * d; }
    else if w == 6 { assert p == 6 * d; }
    else if w == 7 { assert p == 7 * d; }
    else if w == 8 { assert p == 8 * d; }
    else { assert p == 9 * d; }
  }

  /** Neither weight 1 nor 3 times a non-zero digit difference is a multiple of 10. */
  lemma NoMultipleOf10(w: int, d: int)
    requires (w == 1 || w == 3) && -9 <= d <= 9 && d != 0
    ensures (w * d) % 10 != 0
  {
    var p := w * d;
    if w == 1 { assert p == d; } else { assert p == 3 * d; }
  }

  /** Changing any one of the first nine digits of a valid ISBN-10 makes it invalid. */
  lemma Isbn10DetectsSingleDigitError(s: string, t: string, k: nat)
    requires ValidIsbn10(s) && OneDigitChanged(s, t, k) && k < 9
    ensures !ValidIsbn10(t)
  {
    Sum10AfterOneChange(s, t, k, 9);
    NoMultipleOf11(k + 1, DigitValue(t[k]) - DigitValue(s[k]));
    DifferentRemainders11(Sum10(t, 9), Sum10(s, 9));
    assert t[9] == s[9];
  }

  /** Changing any one of the first twelve digits of a valid ISBN-13 makes it invalid. */
  lemma Isbn13DetectsSingleDigitError(s: string, t: string, k: nat)
    requires ValidIsbn13(s) && OneDigitChanged(s, t, k) && k < 12
    ensures !ValidIsbn13(t)
  {
    Sum13AfterOneChange(s, t, k, 12);
    NoMultipleOf10(Weight13(k), DigitValue(t[k]) - DigitValue(s[k]));
    DifferentRemainders10(Sum13(t, 12), Sum13(s, 12));
    CheckDigitsDiffer(Sum13(t, 12), Sum13(s, 12));
    assert t[12] == s[12];
  }

  /** Changing only the check character of a valid ISBN makes it invalid. */
  lemma CheckCharChangeDetected(s: string, c: char)
    requires (ValidIsbn10(s) && c != s[9]) || (ValidIsbn13(s) && c != s[12])
    ensures !ValidIsbn10(s[..|s| - 1] + [c]) && !ValidIsbn13(s[..|s| - 1] + [c])
  {
    var body := s[..|s| - 1];
    assert s == body + [s[|s| - 1]];
    if |s| == 10 {
      Isbn10ExactlyOneCheckChar(body, s[9]);
      Isbn10ExactlyOneCheckChar(body, c);
    } else {
      Isbn13ExactlyOneCheckChar(body, s[12]);
      Isbn13ExactlyOneCheckChar(body, c);
    }
  }

  // ---------------------------------------------------------------------------
  // Examples
  // ---------------------------------------------------------------------------

  /** A valid ISBN-10. */
  lemma Isbn10Example()
    ensures ValidIsbn10("0306406152")
  {
    var s := "0306406152";
    assert Sum10(s, 3) == 6;
    assert Sum10(s, 6) == 50;
    assert Sum10(s, 9) == 145;
  }

  /** The same first nine digits with 'X' as the check character. */
  lemma Isbn10WrongCheckChar()
    ensures !ValidIsbn10("030640615X")
  {
    var s := "030640615X";
    assert Sum10(s, 3) == 6;
    assert Sum10(s, 6) == 50;
    assert Sum10(s, 9) == 145;
  }

  /** The same book's ISBN-13. */
  lemma Isbn13Example()
    ensures ValidIsbn13("9780306406157")
  {
    var s := "9780306406157";
    assert Sum13(s, 4) == 38;
    assert Sum13(s, 8) == 59;
    assert Sum13(s, 12) == 93;
  }

  /** The ISBN-13 with its last digit off by one. */
  lemma Isbn13WrongCheckDigit()
    ensures !ValidIsbn13("9780306406158")
  {
    var s := "9780306406158";
    assert Sum13(s, 4) == 38;
    assert Sum13(s, 8) == 59;
    assert Sum13(s, 12) == 93;
  }
}
