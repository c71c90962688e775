/**
 * The FluentValidation rules of OderManagementAPI's request validator
 * (OderManagementAPI/Features/Order/Validators/CreateOrderProfileRequestValidator.cs),
 * declared in its constructor. Rules run in declaration order and every failing rule
 * reports (no cascade). `DateTime.Now`, read once when the validator is built, is the
 * parameter `now`.
 */
module OderValidator {
  import opened Wrappers
  import opened Text
  import opened Time
  import opened Validation
  import opened OrderCategories
  import opened OderModel
  import opened OderIsbn

  const TitleRequired: string := "Title is required."
  const TitleTooLong: string := "Title must not exceed 200 characters."
  const AuthorRequired: string := "Author is required."
  const AuthorTooLong: string := "Author must not exceed 100 characters."
  const CategoryRequired: string := "A valid category is required."
  const PriceNotPositive: string := "Price must be greater than zero."
  const DateInFuture: string := "Published date cannot be in the future."
  const StockNegative: string := "Stock quantity cannot be negative."

  /** `'{PropertyValue}' is not a valid ISBN-10 or ISBN-13.` with the ISBN put in. */
  function IsbnMessage(isbn: string): (m: string)
    ensures |m| > |isbn| + 1 && m[..|isbn| + 1] == "'" + isbn
  {
    "'" + isbn + "' is not a valid ISBN-10 or ISBN-13."
  }

  /** `NotEmpty()` then `MaximumLength(max)` on one string property; both may fail. */
  function TextFailures(value: string, max: nat, property: string, required: string, tooLong: string)
    : (fs: seq<ValidationFailure>)
    ensures fs == [] <==> !IsWhiteSpaceOnly(value) && Utf16Length(value) <= max
    ensures |fs| <= 2 && forall i :: 0 <= i < |fs| ==> fs[i].propertyName == property
    ensures IsWhiteSpaceOnly(value) ==> fs[0].errorMessage == required
    ensures Utf16Length(value) > max ==> fs[|fs| - 1].errorMessage == tooLong
  {
    Rule(!IsWhiteSpaceOnly(value), property, required) + Rule(Utf16Length(value) <= max, property, tooLong)
  }

  /** The failures of the Category, Price, PublishedDate and StockQuantity rules, in order. */
  function ScalarFailures(r: CreateOrderProfileRequest, now: DateTime): (fs: seq<ValidationFailure>)
    ensures fs == [] <==> IsDefined(r.category) && r.price > 0.0 && r.publishedDate <= now && r.stockQuantity >= 0
    ensures forall i :: 0 <= i < |fs| ==> fs[i].propertyName in {"Category", "Price", "PublishedDate", "StockQuantity"}
  {
    Rule(IsDefined(r.category), "Category", CategoryRequired)
    + Rule(r.price > 0.0, "Price", PriceNotPositive)
    + Rule(r.publishedDate <= now, "PublishedDate", DateInFuture)
    + Rule(r.stockQuantity >= 0, "StockQuantity", StockNegative)
  }

  /** Every rule of the validator holds. */
  predicate Acceptable(r: CreateOrderProfileRequest, now: DateTime) {
    && !IsWhiteSpaceOnly(r.title) && Utf16Length(r.title) <= 200
    && !IsWhiteSpaceOnly(r.author) && Utf16Length(r.author) <= 100
    && IsbnValid(Some(r.isbn))
    && IsDefined(r.category)
    && r.price > 0.0
    && r.publishedDate <= now
    && r.stockQuantity >= 0
  }

  /** The validator's failures: Title, Author, ISBN, then the scalar rules. */
  function Validate(r: CreateOrderProfileRequest, now: DateTime): (failures: seq<ValidationFailure>)
    ensures failures == [] <==> Acceptable(r, now)
  {
    TextFailures(r.title, 200, "Title", TitleRequired, TitleTooLong)
    + TextFailures(r.author, 100, "Author", AuthorRequired, AuthorTooLong)
    + Rule(IsbnValid(Some(r.isbn)), "ISBN", IsbnMessage(r.isbn))
    + ScalarFailures(r, now)
  }

  /** A title of 201 spaces breaks both Title rules, and those two failures come first. */
  lemma BlankLongTitleFailsTwice(r: CreateOrderProfileRequest, now: DateTime)
    requires |r.title| == 201 && forall i :: 0 <= i < 201 ==> r.title[i] == ' '
    ensures Messages(Validate(r, now)[..2]) == [TitleRequired, TitleTooLong]
  {
    var t := TextFailures(r.title, 200, "Title", TitleRequired, TitleTooLong);
    Utf16LengthIsCount(r.title);
    assert IsWhiteSpaceOnly(r.title) by {
      assert forall i :: 0 <= i < |r.title| ==> IsWhiteSpace(r.title[i]);
    }
    assert |t| == 2;
    assert Validate(r, now)[..2] == t;
  }

  /** Some failure names `property`. */
  predicate FailsFor(failures: seq<ValidationFailure>, property: string) {
    exists i :: 0 <= i < |failures| && failures[i].propertyName == property
  }

  /**
   * The ISBN rule fails exactly when the checksum method rejects the ISBN, and its
   * message quotes the ISBN.
   */
  lemma IsbnRuleIsChecksum(r: CreateOrderProfileRequest, now: DateTime)
    ensures FailsFor(Validate(r, now), "ISBN") <==> !IsbnValid(Some(r.isbn))
    ensures forall i :: 0 <= i < |Validate(r, now)| && Validate(r, now)[i].propertyName == "ISBN" ==>
      Validate(r, now)[i].errorMessage == IsbnMessage(r.isbn)
  {
    var title := TextFailures(r.title, 200, "Title", TitleRequired, TitleTooLong);
    var author := TextFailures(r.author, 100, "Author", AuthorRequired, AuthorTooLong);
    var isbn := Rule(IsbnValid(Some(r.isbn)), "ISBN", IsbnMessage(r.isbn));
    var scalar := ScalarFailures(r, now);
    var front := title + author;
    assert Validate(r, now) == front + isbn + scalar;
    assert forall i :: 0 <= i < |front| ==> front[i].propertyName != "ISBN" by {
      forall i | 0 <= i < |front| ensures front[i].propertyName != "ISBN" {
        assert front[i] in title || front[i] in author;
      }
    }
    ChainMiddle(front, isbn, scalar, "ISBN");
    if !IsbnValid(Some(r.isbn)) {
      assert isbn[0].propertyName == "ISBN";
    }
  }

  /**
   * In a chain whose first and last parts report nothing about a property, the
   * property fails exactly when the middle part reports it, and only with its failures.
   */
  lemma ChainMiddle(front: seq<ValidationFailure>, mid: seq<ValidationFailure>, rest: seq<ValidationFailure>,
                    property: string)
    requires forall i :: 0 <= i < |front| ==> front[i].propertyName != property
    requires forall i :: 0 <= i < |rest| ==> rest[i].propertyName != property
    ensures FailsFor(front + mid + rest, property) <==> FailsFor(mid, property)
    ensures forall i :: 0 <= i < |front + mid + rest| && (front + mid + rest)[i].propertyName == property ==>
      (front + mid + rest)[i] in mid
  {
    var fs := front + mid + rest;
    var k := |front| + |mid|;
    assert forall j :: 0 <= j < |front| ==> fs[j] == front[j];
    assert forall j :: |front| <= j < k ==> fs[j] == mid[j - |front|];
    assert forall j :: k <= j < |fs| ==> fs[j] == rest[j - k];
    if FailsFor(mid, property) {
      var i :| 0 <= i < |mid| && mid[i].propertyName == property;
      assert fs[|front| + i] == mid[i];
    }
  }

  /** Hyphens and spaces in the ISBN never change whether the request is accepted. */
  lemma AcceptanceIgnoresIsbnSeparators(r: CreateOrderProfileRequest, now: DateTime, a: string, b: string, sep: char)
    requires sep == '-' || sep == ' '
    requires r.isbn == a + [sep] + b
    ensures Validate(r, now) == [] <==> Validate(r.(isbn := a + b), now) == []
  {
    SeparatorInvariance(a, b, sep);
  }

  /** A publication date equal to the captured clock passes; one tick later fails. */
  lemma PublishedDateBoundary(r: CreateOrderProfileRequest, now: DateTime)
    ensures ScalarFailures(r.(publishedDate := now, category := Fiction, price := 1.0, stockQuantity := 0), now) == []
    ensures ScalarFailures(r.(publishedDate := now + 1), now) != []
  {
  }
}
