/**
 * The older request validator of OderManagementAPI
 * (OderManagementAPI/Persistance/CreateOrderProfileRequestValidator.cs): three
 * `NotEmpty` rules, an ISBN regular expression and two numeric rules.
 *
 * The expression is read with .NET semantics: `IsMatch` searches, `^` anchors at the
 * start, `$` matches at the end or before a final '\n', and `(?=…)` checks without
 * consuming. It has two alternatives, each a literal prefix followed by a look-ahead
 * and a body:
 *   13-digit: prefix ISBN, ISBN:, ISBN-13 or ISBN-13:, look-ahead 13 digits then `$`,
 *             body `([0-9]{3}-){2}[0-9]{3}[0-9X]$`;
 *   10-digit: prefix ISBN, ISBN:, ISBN-10 or ISBN-10:, look-ahead 10 digits then `$`,
 *             body `[0-9]{9}[0-9X]$`.
 */
module OderPersistenceValidator {
  import opened Text
  import opened Validation
  import opened OrderCategories
  import opened OderModel

  // ---------------------------------------------------------------------------
  // The regular expression
  // ---------------------------------------------------------------------------

  /** The alternatives `ISBN(?:-13)?:?` can take. */
  const Prefixes13: seq<string> := ["ISBN", "ISBN:", "ISBN-13", "ISBN-13:"]

  /** The alternatives `ISBN(?:-10)?:?` can take. */
  const Prefixes10: seq<string> := ["ISBN", "ISBN:", "ISBN-10", "ISBN-10:"]

  predicate StartsWith(s: string, p: string) {
    |p| <= |s| && s[..|p|] == p
  }

  /** `$` at position i: the end, or just before a final line feed. */
  predicate EndAt(s: string, i: int) {
    i == |s| || (i == |s| - 1 && 0 <= i && s[i] == '\n')
  }

  /** The digits `[0-9]` at positions from..to-1. */
  predicate DigitsAt(s: string, from: nat, to: nat) {
    to <= |s| && forall i :: from <= i < to ==> IsAsciiDigit(s[i])
  }

  /** `[0-9X]` at position i. */
  predicate DigitOrXAt(s: string, i: nat) {
    i < |s| && (IsAsciiDigit(s[i]) || s[i] == 'X')
  }

  /** The 13-digit alternative, with prefix `p`, from the start of `s`. */
  predicate Branch13(s: string, p: string) {
    var n := |p|;
    && StartsWith(s, p)
    && DigitsAt(s, n, n + 13) && EndAt(s, n + 13)
    && DigitsAt(s, n, n + 3) && n + 3 < |s| && s[n + 3] == '-'
    && DigitsAt(s, n + 4, n + 7) && n + 7 < |s| && s[n + 7] == '-'
    && DigitsAt(s, n + 8, n + 11) && DigitOrXAt(s, n + 11) && EndAt(s, n + 12)
  }

  /** The 10-digit alternative, with prefix `p`, from the start of `s`. */
  predicate Branch10(s: string, p: string) {
    var n := |p|;
    && StartsWith(s, p)
    && DigitsAt(s, n, n + 10) && EndAt(s, n + 10)
    && DigitsAt(s, n, n + 9) && DigitOrXAt(s, n + 9) && EndAt(s, n + 10)
  }

  /** `Regex.IsMatch` with the ISBN pattern. */
  predicate MatchesIsbnRegex(s: string) {
    || (exists k :: 0 <= k < |Prefixes13| && Branch13(s, Prefixes13[k]))
    || (exists k :: 0 <= k < |Prefixes10| && Branch10(s, Prefixes10[k]))
  }

  /** The 13-digit alternative never matches: its look-ahead wants a digit where its body wants '-'. */
  lemma Branch13NeverMatches(s: string, p: string)
    ensures !Branch13(s, p)
  {
    var n := |p|;
    if DigitsAt(s, n, n + 13) {
      assert IsAsciiDigit(s[n + 3]);
    }
  }

  /** What the expression accepts, stated directly: a 10-prefix, ten digits, then the end. */
  predicate AcceptedShape(s: string) {
    exists k :: 0 <= k < |Prefixes10| && AcceptedWithPrefix(s, Prefixes10[k])
  }

  predicate AcceptedWithPrefix(s: string, p: string) {
    && StartsWith(s, p)
    && (|s| == |p| + 10 || (|s| == |p| + 11 && s[|s| - 1] == '\n'))
    && DigitsAt(s, |p|, |p| + 10)
  }

  /** The expression accepts exactly the strings of `AcceptedShape`. */
  lemma RegexCharacterization(s: string)
    ensures MatchesIsbnRegex(s) <==> AcceptedShape(s)
  {
    forall k | 0 <= k < |Prefixes13|
      ensures !Branch13(s, Prefixes13[k])
    {
      Branch13NeverMatches(s, Prefixes13[k]);
    }
    forall k | 0 <= k < |Prefixes10|
      ensures Branch10(s, Prefixes10[k]) <==> AcceptedWithPrefix(s, Prefixes10[k])
    {
    }
  }

  /** Every accepted ISBN begins with the literal "ISBN": the prefix group is not optional. */
  lemma AcceptedStartsWithIsbn(s: string)
    requires MatchesIsbnRegex(s)
    ensures StartsWith(s, "ISBN")
  {
    RegexCharacterization(s);
    var k :| 0 <= k < |Prefixes10| && AcceptedWithPrefix(s, Prefixes10[k]);
    var p := Prefixes10[k];
    assert s[..4] == s[..|p|][..4] == p[..4];
  }

  /** No accepted ISBN contains 'X': the look-ahead makes all ten trailing characters digits. */
  lemma AcceptedHasNoX(s: string)
    requires MatchesIsbnRegex(s)
    ensures 'X' !in s
  {
    RegexCharacterization(s);
    var k :| 0 <= k < |Prefixes10| && AcceptedWithPrefix(s, Prefixes10[k]);
    var p := Prefixes10[k];
    forall i | 0 <= i < |s|
      ensures s[i] != 'X'
    {
      if i < |p| {
        assert s[i] == s[..|p|][i] == p[i];
      }
    }
  }

  /** A ten-digit ISBN behind an "ISBN" or "ISBN-10:" prefix is accepted. */
  lemma PrefixedExamplesAccepted()
    ensures MatchesIsbnRegex("ISBN0306406152")
    ensures MatchesIsbnRegex("ISBN-10:0306406152")
  {
    assert AcceptedWithPrefix("ISBN0306406152", Prefixes10[0]);
    RegexCharacterization("ISBN0306406152");
    assert AcceptedWithPrefix("ISBN-10:0306406152", Prefixes10[3]);
    RegexCharacterization("ISBN-10:0306406152");
  }

  /** A bare ISBN-10, a hyphenated ISBN-13 and an 'X' check character are rejected. */
  lemma RejectedExamples()
    ensures !MatchesIsbnRegex("0306406152")
    ensures !MatchesIsbnRegex("ISBN-13:978-030-640-6157")
    ensures !MatchesIsbnRegex("ISBN080442957X")
  {
    assert !StartsWith("0306406152", "ISBN") by {
      assert "0306406152"[0] != 'I';
    }
    if MatchesIsbnRegex("0306406152") {
      AcceptedStartsWithIsbn("0306406152");
    }
    RegexCharacterization("ISBN-13:978-030-640-6157");
    assert "ISBN-13:978-030-640-6157"[4] == '-';
    assert 'X' in "ISBN080442957X" by {
      assert "ISBN080442957X"[13] == 'X';
    }
    if MatchesIsbnRegex("ISBN080442957X") {
      AcceptedHasNoX("ISBN080442957X");
    }
  }

  /** A blank string never matches: it cannot start with "ISBN". */
  lemma BlankNotMatched(s: string)
    requires IsWhiteSpaceOnly(s)
    ensures !MatchesIsbnRegex(s)
  {
    RegexCharacterization(s);
    if |s| > 0 {
      assert IsWhiteSpace(s[0]);
    }
    forall k | 0 <= k < |Prefixes10|
      ensures !AcceptedWithPrefix(s, Prefixes10[k])
    {
      if |s| >= 4 {
        assert s[0] != Prefixes10[k][0];
      }
    }
  }

  // ---------------------------------------------------------------------------
  // The validator
  // ---------------------------------------------------------------------------

  const TitleRequired: string := "Title is required."
  const AuthorRequired: string := "Author is required."
  const IsbnRequired: string := "ISBN is required."
  const IsbnFormat: string := "ISBN must be a valid ISBN-10 or ISBN-13 format."
  const PriceNotPositive: string := "Price must be greater than 0."
  const StockNegative: string := "Stock quantity cannot be negative."

  /** The six rules in declaration order; every failing rule reports. */
  function Validate(r: CreateOrderProfileRequest): (failures: seq<ValidationFailure>)
    ensures failures == [] <==>
      !IsWhiteSpaceOnly(r.title) && !IsWhiteSpaceOnly(r.author) && !IsWhiteSpaceOnly(r.isbn)
      && MatchesIsbnRegex(r.isbn) && r.price > 0.0 && r.stockQuantity >= 0
  {
    Rule(!IsWhiteSpaceOnly(r.title), "Title", TitleRequired)
    + Rule(!IsWhiteSpaceOnly(r.author), "Author", AuthorRequired)
    + Rule(!IsWhiteSpaceOnly(r.isbn), "ISBN", IsbnRequired)
    + Rule(MatchesIsbnRegex(r.isbn), "ISBN", IsbnFormat)
    + Rule(r.price > 0.0, "Price", PriceNotPositive)
    + Rule(r.stockQuantity >= 0, "StockQuantity", StockNegative)
  }

  /** The example request's title "T" and author "A" pass their rules. */
  lemma NamedTitleAndAuthor(r: CreateOrderProfileRequest)
    requires r.title == "T" && r.author == "A"
    ensures !IsWhiteSpaceOnly(r.title) && !IsWhiteSpaceOnly(r.author)
  {
    assert r.title[0] == 'T' && !IsWhiteSpace('T');
    assert r.author[0] == 'A' && !IsWhiteSpace('A');
  }

  /** A blank ISBN fails both ISBN rules, "required" first. */
  lemma BlankIsbnFailsTwice(r: CreateOrderProfileRequest)
    requires r.title == "T" && r.author == "A" && r.price > 0.0 && r.stockQuantity >= 0
    requires IsWhiteSpaceOnly(r.isbn)
    ensures Messages(Validate(r)) == [IsbnRequired, IsbnFormat]
  {
    BlankNotMatched(r.isbn);
    NamedTitleAndAuthor(r);
    assert Validate(r) == [ValidationFailure("ISBN", IsbnRequired), ValidationFailure("ISBN", IsbnFormat)];
  }

  /** Price and stock each report their own message. */
  lemma NumericRules(r: CreateOrderProfileRequest)
    requires r.title == "T" && r.author == "A" && r.isbn == "ISBN0306406152"
    ensures r.price <= 0.0 && r.stockQuantity >= 0 ==> Messages(Validate(r)) == [PriceNotPositive]
    ensures r.price > 0.0 && r.stockQuantity < 0 ==> Messages(Validate(r)) == [StockNegative]
  {
    PrefixedExamplesAccepted();
    NamedTitleAndAuthor(r);
    assert !IsWhiteSpaceOnly(r.isbn) by {
      assert r.isbn[0] == 'I';
    }
    if r.price <= 0.0 && r.stockQuantity >= 0 {
      assert Validate(r) == [ValidationFailure("Price", PriceNotPositive)];
    }
    if r.price > 0.0 && r.stockQuantity < 0 {
      assert Validate(r) == [ValidationFailure("StockQuantity", StockNegative)];
    }
  }

  /** Category, publication date and cover URL are not constrained. */
  lemma UnconstrainedFields(r: CreateOrderProfileRequest, r2: CreateOrderProfileRequest)
    requires r2 == r.(category := r2.category, publishedDate := r2.publishedDate, coverImageUrl := r2.coverImageUrl)
    ensures Validate(r2) == Validate(r)
  {
  }
}
