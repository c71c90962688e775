/**
 * The FluentValidation validator of OrderManagementAPI
 * (OrderManagementAPI/Features/Order/Validators/CreateOrderProfileRequestValidator.cs).
 *
 * No cascade mode is set, so every check of a rule chain runs and each failing check
 * adds its own failure, chain by chain in declaration order. The database is a
 * read-only list of stored orders; `DateTime.Today` is the parameter `today`, which as
 * a reading of `DateTime.Today` is always a midnight (`Date(today) == today`); URI
 * parsing (`Uri.TryCreate`) is the parameter `parseUri`. String lengths are `string.Length`,
 * counted in UTF-16 code units.
 */
module OrderApiValidator {
  import opened Wrappers
  import opened Text
  import opened Time
  import opened OrderCategories
  import opened Validation
  import opened OrderApiModel
  import OrderApiIsbnAttribute

  // ---------------------------------------------------------------------------
  // Messages
  // ---------------------------------------------------------------------------

  const TitleRequired := "The order title is required."
  const TitleTooShort := "The title must be at least 1 character long."
  const TitleTooLong := "The title must not exceed 200 characters."
  const TitleInappropriate := "The title contains inappropriate content."
  const TitleTaken := "An order with this title already exists for this author."
  const AuthorRequired := "The author's name is required."
  const AuthorTooShort := "The author's name must be at least 2 characters long."
  const AuthorTooLong := "The author's name must not exceed 100 characters."
  const AuthorInvalid :=
    "The author's name contains invalid characters. Only letters, spaces, hyphens, apostrophes, and dots are allowed."
  const IsbnRequired := "The ISBN is required."
  const IsbnBadFormat := "The ISBN must be a valid 10 or 13 digit format (may contain hyphens)."
  const IsbnTakenMessage := "An order with this ISBN already exists in the system."
  const CategoryInvalid := "The category must be a valid enum value."
  const PriceNotPositive := "The price must be greater than zero."
  const PriceTooHigh := "The price must be less than $10,000."
  const DateInFuture := "The published date cannot be in the future."
  const DateTooEarly := "The published date cannot be before the year 1400."
  const StockNegative := "The stock quantity cannot be negative."
  const StockTooHigh := "The stock quantity cannot exceed 100,000."
  const CoverInvalid :=
    "The cover image URL must be a valid HTTP/HTTPS URL ending with an image extension (.jpg, .jpeg, .png, .gif, .webp)."
  const BusinessRulesFailed := "The order failed complex business rule validation."

  // ---------------------------------------------------------------------------
  // The custom predicates
  // ---------------------------------------------------------------------------

  const InappropriateWords: seq<string> := ["badword1", "badword2", "inappropriate"]

  /** The title holds one of the listed words, ignoring case. */
  predicate HasInappropriateWord(title: string) {
    exists k :: 0 <= k < |InappropriateWords| && ContainsIgnoreCase(title, InappropriateWords[k])
  }

  /** `BeAppropriateTitle`: a `foreach` over the word list that returns at the first hit. */
  method BeAppropriateTitle(title: string) returns (ok: bool)
    ensures ok <==> !HasInappropriateWord(title)
  {
    for k := 0 to |InappropriateWords|
      invariant forall j :: 0 <= j < k ==> !ContainsIgnoreCase(title, InappropriateWords[j])
    {
      if ContainsIgnoreCase(title, InappropriateWords[k]) {
        return false;
      }
    }
    return true;
  }

  /** The negation of `BeUniqueTitleForAuthor`: some stored order has this exact title and author. */
  predicate TitleTakenForAuthor(store: seq<Order>, title: string, author: string) {
    exists i :: 0 <= i < |store| && store[i].title == title && store[i].author == author
  }

  /** The negation of `BeUniqueIsbn`: some stored order has this exact ISBN string. */
  predicate IsbnTaken(store: seq<Order>, isbn: string) {
    exists i :: 0 <= i < |store| && store[i].isbn == isbn
  }

  /** One character of `[a-zA-Z\s\-\'\.]`; .NET's `\s` is the `char.IsWhiteSpace` set. */
  predicate AuthorChar(c: char) {
    IsAsciiLetter(c) || IsWhiteSpace(c) || c == '-' || c == '\'' || c == '.'
  }

  /**
   * `Regex.IsMatch(author, @"^[a-zA-Z\s\-\'\.]+$")`. A final '\n' that `$` may skip is a
   * whitespace character of the class itself, so it changes nothing here.
   */
  predicate MatchesAuthorPattern(author: string) {
    |author| >= 1 && forall i :: 0 <= i < |author| ==> AuthorChar(author[i])
  }

  /** `BeValidIsbnFormat`: only hyphens are removed, then the shape check; no check digit. */
  predicate BeValidIsbnFormat(isbn: string) {
    OrderApiIsbnAttribute.MatchesIsbnPattern(Remove(isbn, '-'))
  }

  /** What `Uri.TryCreate(url, UriKind.Absolute, out uri)` yields: the scheme and the path. */
  datatype Uri = Uri(scheme: string, absolutePath: string)

  /**
   * `Path.GetExtension` scanning `path[..i]` from the end: a '.' gives the suffix from it
   * (nothing when the '.' is the last character), a '/' ends the search.
   */
  function ExtensionScan(path: string, i: nat): (e: string)
    requires i <= |path|
    requires forall j :: i <= j < |path| ==> path[j] != '.' && path[j] != '/'
    ensures e != [] ==>
      && 2 <= |e| <= |path| && e[0] == '.' && e == path[|path| - |e|..]
      && forall j :: 1 <= j < |e| ==> e[j] != '.' && e[j] != '/'
    decreases i
  {
    if i == 0 then ""
    else if path[i - 1] == '.' then (if i == |path| then "" else path[i - 1..])
    else if path[i - 1] == '/' then ""
    else ExtensionScan(path, i - 1)
  }

  /** `Path.GetExtension(path)`. */
  function Extension(path: string): (e: string)
    ensures e != [] ==>
      && 2 <= |e| <= |path| && e[0] == '.' && e == path[|path| - |e|..]
      && forall j :: 1 <= j < |e| ==> e[j] != '.' && e[j] != '/'
  {
    ExtensionScan(path, |path|)
  }

  /** Conversely, a path whose last segment ends in '.' and a dot-free name has that extension. */
  lemma ExtensionOfName(stem: string, ext: string)
    requires ext != [] && forall j :: 0 <= j < |ext| ==> ext[j] != '.' && ext[j] != '/'
    ensures Extension(stem + ['.'] + ext) == ['.'] + ext
  {
    var path := stem + ['.'] + ext;
    ScanThroughName(path, |stem|, |path|);
    assert path[|stem|..] == ['.'] + ext;
  }

  /** The scan walks back over a dot-free, slash-free name to the '.' at `dot`. */
  lemma {:induction false} ScanThroughName(path: string, dot: nat, i: nat)
    requires dot + 1 < |path| && path[dot] == '.'
    requires forall j :: dot < j < |path| ==> path[j] != '.' && path[j] != '/'
    requires dot + 1 <= i <= |path|
    ensures ExtensionScan(path, i) == path[dot..]
    decreases i
  {
    if i > dot + 1 {
      ScanThroughName(path, dot, i - 1);
    }
  }

  const ImageExtensions: seq<string> := [".jpg", ".jpeg", ".png", ".gif", ".webp"]

  /** `BeValidImageUrl`. */
  predicate BeValidImageUrl(url: Option<string>, parseUri: string -> Option<Uri>) {
    match url
    case None => true
    case Some(u) =>
      if u == [] then true
      else match parseUri(u)
        case None => false
        case Some(uri) =>
          (uri.scheme == "http" || uri.scheme == "https")
          && ToLower(Extension(uri.absolutePath)) in ImageExtensions
  }

  /** An absolute http/https URL whose path ends in a listed extension, in any case, is accepted. */
  lemma ImageUrlVerdict(u: string, parseUri: string -> Option<Uri>, scheme: string, stem: string, ext: string)
    requires u != [] && parseUri(u) == Some(Uri(scheme, stem + ['.'] + ext))
    requires ext != [] && forall j :: 0 <= j < |ext| ==> ext[j] != '.' && ext[j] != '/'
    ensures BeValidImageUrl(Some(u), parseUri) <==>
      (scheme == "http" || scheme == "https") && ToLower(['.'] + ext) in ImageExtensions
  {
    ExtensionOfName(stem, ext);
  }

  /** The number of stored orders whose published date falls on `day`. */
  function CountPublishedOn(store: seq<Order>, day: DateTime): (n: nat)
    ensures n <= |store|
  {
    if store == [] then 0
    else (if Date(store[0].publishedDate) == day then 1 else 0) + CountPublishedOn(store[1..], day)
  }

  /** The four business rules, none of which may be violated. */
  predicate PassesBusinessRules(r: CreateOrderProfileRequest, today: DateTime, store: seq<Order>) {
    && CountPublishedOn(store, Date(today)) < 500
    && !(r.category == Technical && r.price < 20.0)
    && !(r.category == Children && HasInappropriateWord(r.title))
    && !(r.price > 500.0 && r.stockQuantity > 10)
  }

  /** `PassComplexBusinessRules`: the rules in order, returning at the first violation. */
  method PassComplexBusinessRules(r: CreateOrderProfileRequest, today: DateTime, store: seq<Order>)
    returns (ok: bool)
    ensures ok <==> PassesBusinessRules(r, today, store)
  {
    var ordersToday := CountPublishedOn(store, Date(today));
    if ordersToday >= 500 {
      return false;
    }
    if r.category == Technical && r.price < 20.0 {
      return false;
    }
    if r.category == Children {
      for k := 0 to |InappropriateWords|
        invariant forall j :: 0 <= j < k ==> !ContainsIgnoreCase(r.title, InappropriateWords[j])
      {
        if ContainsIgnoreCase(r.title, InappropriateWords[k]) {
          return false;
        }
      }
    }
    if r.price > 500.0 && r.stockQuantity > 10 {
      return false;
    }
    return true;
  }

  // ---------------------------------------------------------------------------
  // The rule chains
  // ---------------------------------------------------------------------------

  /** Every failure in `failures` is about `property`. */
  predicate AllFor(failures: seq<ValidationFailure>, property: string) {
    forall i :: 0 <= i < |failures| ==> failures[i].propertyName == property
  }

  function TitleFailures(r: CreateOrderProfileRequest, store: seq<Order>): (fs: seq<ValidationFailure>)
    ensures AllFor(fs, "Title")
  {
    Rule(!IsWhiteSpaceOnly(r.title), "Title", TitleRequired)
    + Rule(Utf16Length(r.title) >= 1, "Title", TitleTooShort)
    + Rule(Utf16Length(r.title) <= 200, "Title", TitleTooLong)
    + Rule(!HasInappropriateWord(r.title), "Title", TitleInappropriate)
    + Rule(!TitleTakenForAuthor(store, r.title, r.author), "Title", TitleTaken)
  }

  function AuthorFailures(r: CreateOrderProfileRequest): (fs: seq<ValidationFailure>)
    ensures AllFor(fs, "Author")
  {
    Rule(!IsWhiteSpaceOnly(r.author), "Author", AuthorRequired)
    + Rule(Utf16Length(r.author) >= 2, "Author", AuthorTooShort)
    + Rule(Utf16Length(r.author) <= 100, "Author", AuthorTooLong)
    + Rule(MatchesAuthorPattern(r.author), "Author", AuthorInvalid)
  }

  function IsbnFailures(r: CreateOrderProfileRequest, store: seq<Order>): (fs: seq<ValidationFailure>)
    ensures AllFor(fs, "ISBN")
  {
    Rule(!IsWhiteSpaceOnly(r.isbn), "ISBN", IsbnRequired)
    + Rule(BeValidIsbnFormat(r.isbn), "ISBN", IsbnBadFormat)
    + Rule(!IsbnTaken(store, r.isbn), "ISBN", IsbnTakenMessage)
  }

  function ScalarFailures(r: CreateOrderProfileRequest, today: DateTime): (fs: seq<ValidationFailure>)
    ensures forall i :: 0 <= i < |fs| ==> fs[i].propertyName in {"Category", "Price", "PublishedDate", "StockQuantity"}
  {
    Rule(IsDefined(r.category), "Category", CategoryInvalid)
    + Rule(r.price > 0.0, "Price", PriceNotPositive)
    + Rule(r.price < 10000.0, "Price", PriceTooHigh)
    + Rule(r.publishedDate <= today, "PublishedDate", DateInFuture)
    + Rule(r.publishedDate >= Year1400Start, "PublishedDate", DateTooEarly)
    + Rule(r.stockQuantity >= 0, "StockQuantity", StockNegative)
    + Rule(r.stockQuantity <= 100000, "StockQuantity", StockTooHigh)
  }

  /** The URL rule runs only `When` the URL is neither null nor empty. */
  predicate CoverUrlPresent(url: Option<string>) {
    url.Some? && url.value != []
  }

  function CoverFailures(r: CreateOrderProfileRequest, parseUri: string -> Option<Uri>): (fs: seq<ValidationFailure>)
    ensures AllFor(fs, "CoverImageUrl")
  {
    if CoverUrlPresent(r.coverImageUrl) then Rule(BeValidImageUrl(r.coverImageUrl, parseUri), "CoverImageUrl", CoverInvalid)
    else []
  }

  /** The chains after the ISBN chain: the scalar fields, the cover URL and the whole-request rule. */
  function LaterFailures(r: CreateOrderProfileRequest, today: DateTime, store: seq<Order>, parseUri: string -> Option<Uri>)
    : (fs: seq<ValidationFailure>)
    ensures forall i :: 0 <= i < |fs| ==>
      fs[i].propertyName in {"Category", "Price", "PublishedDate", "StockQuantity", "CoverImageUrl", ""}
  {
    ScalarFailures(r, today) + CoverFailures(r, parseUri)
    + Rule(PassesBusinessRules(r, today, store), "", BusinessRulesFailed)
  }

  /** Everything the validator checks, stated as one condition. */
  predicate Acceptable(r: CreateOrderProfileRequest, today: DateTime, store: seq<Order>, parseUri: string -> Option<Uri>) {
    && !IsWhiteSpaceOnly(r.title) && Utf16Length(r.title) <= 200
    && !HasInappropriateWord(r.title) && !TitleTakenForAuthor(store, r.title, r.author)
    && 2 <= Utf16Length(r.author) <= 100 && !IsWhiteSpaceOnly(r.author) && MatchesAuthorPattern(r.author)
    && !IsWhiteSpaceOnly(r.isbn) && BeValidIsbnFormat(r.isbn) && !IsbnTaken(store, r.isbn)
    && IsDefined(r.category)
    && 0.0 < r.price < 10000.0
    && Year1400Start <= r.publishedDate <= today
    && 0 <= r.stockQuantity <= 100000
    && (CoverUrlPresent(r.coverImageUrl) ==> BeValidImageUrl(r.coverImageUrl, parseUri))
    && PassesBusinessRules(r, today, store)
  }

  /** `Validate`: the failures of every chain, in declaration order. */
  function Validate(r: CreateOrderProfileRequest, today: DateTime, store: seq<Order>, parseUri: string -> Option<Uri>)
    : (failures: seq<ValidationFailure>)
    ensures failures == [] <==> Acceptable(r, today, store, parseUri)
  {
    TitleFailures(r, store) + AuthorFailures(r) + IsbnFailures(r, store) + LaterFailures(r, today, store, parseUri)
  }

  // ---------------------------------------------------------------------------
  // Properties
  // ---------------------------------------------------------------------------

  /** An empty title fails both the emptiness check and the length check, in that order. */
  lemma EmptyTitleFailsTwice(r: CreateOrderProfileRequest, today: DateTime, store: seq<Order>, parseUri: string -> Option<Uri>)
    requires r.title == []
    ensures Validate(r, today, store, parseUri)[..2]
      == [ValidationFailure("Title", TitleRequired), ValidationFailure("Title", TitleTooShort)]
  {
    assert TitleFailures(r, store)[..2]
      == [ValidationFailure("Title", TitleRequired), ValidationFailure("Title", TitleTooShort)];
  }

  /** A whitespace-only title is reported as missing but not as too short. */
  lemma BlankTitleIsRequiredOnly(r: CreateOrderProfileRequest, store: seq<Order>)
    requires r.title == " "
    ensures TitleFailures(r, store)[0] == ValidationFailure("Title", TitleRequired)
    ensures ValidationFailure("Title", TitleTooShort) !in TitleFailures(r, store)
  {
    assert IsWhiteSpaceOnly(r.title);
  }

  /** A title longer than 200 characters is reported as too long. */
  lemma LongTitleReported(r: CreateOrderProfileRequest, today: DateTime, store: seq<Order>, parseUri: string -> Option<Uri>)
    requires Utf16Length(r.title) > 200
    ensures ValidationFailure("Title", TitleTooLong) in Validate(r, today, store, parseUri)
  {
    assert ValidationFailure("Title", TitleTooLong) in TitleFailures(r, store);
  }

  /** Lengths are UTF-16 code units: 101 characters above U+FFFF are 202 units, too long for a title. */
  lemma SurrogatePairTitleTooLong(r: CreateOrderProfileRequest, today: DateTime, store: seq<Order>, parseUri: string -> Option<Uri>)
    requires |r.title| == 101 && forall i :: 0 <= i < |r.title| ==> !IsBmp(r.title[i])
    ensures ValidationFailure("Title", TitleTooLong) in Validate(r, today, store, parseUri)
  {
    Utf16LengthOfSurrogatePairs(r.title);
    LongTitleReported(r, today, store, parseUri);
  }

  /** One character above U+FFFF is two code units, so it meets the author's `MinimumLength(2)`. */
  lemma SurrogatePairAuthorLongEnough(r: CreateOrderProfileRequest)
    requires |r.author| == 1 && !IsBmp(r.author[0])
    ensures ValidationFailure("Author", AuthorTooShort) !in AuthorFailures(r)
  {
    Utf16LengthOfSurrogatePairs(r.author);
  }

  /** No failure in `failures` is about `property`. */
  predicate NoFailureFor(failures: seq<ValidationFailure>, property: string) {
    forall i :: 0 <= i < |failures| ==> failures[i].propertyName != property
  }

  /**
   * `Validate` as the title chain followed by the failures of the other properties;
   * none of those is about the title.
   */
  lemma SplitOffTitle(r: CreateOrderProfileRequest, today: DateTime, store: seq<Order>, parseUri: string -> Option<Uri>)
    returns (rest: seq<ValidationFailure>)
    ensures Validate(r, today, store, parseUri) == TitleFailures(r, store) + rest
    ensures NoFailureFor(rest, "Title")
  {
    rest := AuthorFailures(r) + IsbnFailures(r, store) + LaterFailures(r, today, store, parseUri);
  }

  /** Likewise for the author chain, which sits between the title and the later chains. */
  lemma SplitOffAuthor(r: CreateOrderProfileRequest, today: DateTime, store: seq<Order>, parseUri: string -> Option<Uri>)
    returns (front: seq<ValidationFailure>, rest: seq<ValidationFailure>)
    ensures Validate(r, today, store, parseUri) == front + AuthorFailures(r) + rest
    ensures NoFailureFor(front, "Author") && NoFailureFor(rest, "Author")
  {
    front := TitleFailures(r, store);
    rest := IsbnFailures(r, store) + LaterFailures(r, today, store, parseUri);
  }

  /** Likewise for the ISBN chain. */
  lemma SplitOffIsbn(r: CreateOrderProfileRequest, today: DateTime, store: seq<Order>, parseUri: string -> Option<Uri>)
    returns (front: seq<ValidationFailure>, rest: seq<ValidationFailure>)
    ensures Validate(r, today, store, parseUri) == front + IsbnFailures(r, store) + rest
    ensures NoFailureFor(front, "ISBN") && NoFailureFor(rest, "ISBN")
  {
    front := TitleFailures(r, store) + AuthorFailures(r);
    rest := LaterFailures(r, today, store, parseUri);
  }

  /** The title is accepted exactly when it passes each of the five title checks. */
  lemma TitleAcceptedIff(r: CreateOrderProfileRequest, today: DateTime, store: seq<Order>, parseUri: string -> Option<Uri>)
    ensures NoFailureFor(Validate(r, today, store, parseUri), "Title") <==>
      && !IsWhiteSpaceOnly(r.title) && Utf16Length(r.title) <= 200
      && !HasInappropriateWord(r.title) && !TitleTakenForAuthor(store, r.title, r.author)
  {
    var rest := SplitOffTitle(r, today, store, parseUri);
    var t := TitleFailures(r, store);
    assert NoFailureFor(t + rest, "Title") <==> t == [] by {
      if t != [] { assert (t + rest)[0] == t[0]; }
    }
    if !IsWhiteSpaceOnly(r.title) { assert r.title != []; }
  }

  /** The inappropriate-content failure appears exactly when a listed word occurs in the title. */
  lemma InappropriateTitleIff(r: CreateOrderProfileRequest, today: DateTime, store: seq<Order>, parseUri: string -> Option<Uri>)
    ensures ValidationFailure("Title", TitleInappropriate) in Validate(r, today, store, parseUri)
      <==> HasInappropriateWord(r.title)
  {
    var rest := SplitOffTitle(r, today, store, parseUri);
    assert ValidationFailure("Title", TitleInappropriate) !in rest;
  }

  /** The duplicate-title failure appears exactly when an order with the same title and author is stored. */
  lemma DuplicateTitleIff(r: CreateOrderProfileRequest, today: DateTime, store: seq<Order>, parseUri: string -> Option<Uri>)
    ensures ValidationFailure("Title", TitleTaken) in Validate(r, today, store, parseUri)
      <==> exists o :: o in store && o.title == r.title && o.author == r.author
  {
    var rest := SplitOffTitle(r, today, store, parseUri);
    assert ValidationFailure("Title", TitleTaken) !in rest;
    TitleTakenInChain(r, store);
    TitleTakenIffStored(store, r.title, r.author);
  }

  /** Of the title chain, only its last rule can report the taken title. */
  lemma TitleTakenInChain(r: CreateOrderProfileRequest, store: seq<Order>)
    ensures ValidationFailure("Title", TitleTaken) in TitleFailures(r, store)
      <==> TitleTakenForAuthor(store, r.title, r.author)
  {
    var front := Rule(!IsWhiteSpaceOnly(r.title), "Title", TitleRequired)
      + Rule(Utf16Length(r.title) >= 1, "Title", TitleTooShort)
      + Rule(Utf16Length(r.title) <= 200, "Title", TitleTooLong)
      + Rule(!HasInappropriateWord(r.title), "Title", TitleInappropriate);
    assert forall i :: 0 <= i < |front| ==> front[i].errorMessage != TitleTaken;
    assert TitleFailures(r, store) == front + Rule(!TitleTakenForAuthor(store, r.title, r.author), "Title", TitleTaken);
  }

  lemma TitleTakenIffStored(store: seq<Order>, title: string, author: string)
    ensures TitleTakenForAuthor(store, title, author) <==> exists o :: o in store && o.title == title && o.author == author
  {
    if exists o :: o in store && o.title == title && o.author == author {
      var o :| o in store && o.title == title && o.author == author;
      var i :| 0 <= i < |store| && store[i] == o;
    }
  }

  /** The author is accepted exactly when it is 2 to 100 characters of letters, whitespace, '-', '\'' and '.', not all blank. */
  lemma AuthorAcceptedIff(r: CreateOrderProfileRequest, today: DateTime, store: seq<Order>, parseUri: string -> Option<Uri>)
    ensures NoFailureFor(Validate(r, today, store, parseUri), "Author") <==>
      && 2 <= Utf16Length(r.author) <= 100 && !IsWhiteSpaceOnly(r.author)
      && forall i :: 0 <= i < |r.author| ==> AuthorChar(r.author[i])
  {
    var front, rest := SplitOffAuthor(r, today, store, parseUri);
    var a := AuthorFailures(r);
    NoFailureForMiddle(front, a, rest, "Author");
    assert a == [] <==> !IsWhiteSpaceOnly(r.author) && Utf16Length(r.author) >= 2 && Utf16Length(r.author) <= 100 && MatchesAuthorPattern(r.author);
  }

  /** Between two sequences with no failure for a property, a chain of that property's failures decides alone. */
  lemma NoFailureForMiddle(front: seq<ValidationFailure>, mid: seq<ValidationFailure>, rest: seq<ValidationFailure>,
                           property: string)
    requires NoFailureFor(front, property) && NoFailureFor(rest, property) && AllFor(mid, property)
    ensures NoFailureFor(front + mid + rest, property) <==> mid == []
  {
    if mid != [] {
      assert (front + mid + rest)[|front|] == mid[0];
    } else {
      assert front + mid + rest == front + rest;
    }
  }

  /** The duplicate-ISBN failure appears exactly when the same ISBN string, unnormalised, is stored. */
  lemma DuplicateIsbnIff(r: CreateOrderProfileRequest, today: DateTime, store: seq<Order>, parseUri: string -> Option<Uri>)
    ensures ValidationFailure("ISBN", IsbnTakenMessage) in Validate(r, today, store, parseUri)
      <==> exists o :: o in store && o.isbn == r.isbn
  {
    var front, rest := SplitOffIsbn(r, today, store, parseUri);
    assert ValidationFailure("ISBN", IsbnTakenMessage) !in front;
    assert ValidationFailure("ISBN", IsbnTakenMessage) !in rest;
    if exists o :: o in store && o.isbn == r.isbn {
      var o :| o in store && o.isbn == r.isbn;
      var i :| 0 <= i < |store| && store[i] == o;
      assert IsbnTaken(store, r.isbn);
    }
  }

  /** A space at index `k` rules out both ISBN shapes. */
  lemma SpaceIsNoShape(s: string, k: nat)
    requires k < |s| && s[k] == ' '
    ensures !OrderApiIsbnAttribute.IsbnShape(s)
  {
    if k < 9 <= |s| {
      assert s[..9][k] == ' ';
    }
  }

  /** The format check removes hyphens only: a space inside the ISBN is a format error. */
  lemma {:induction false} SpaceBreaksIsbnFormat(a: string, b: string)
    ensures !BeValidIsbnFormat(a + [' '] + b)
  {
    RemoveConcat(a + [' '], b, '-');
    RemoveConcat(a, [' '], '-');
    var c := Remove(a + [' '] + b, '-');
    var k := |Remove(a, '-')|;
    assert c[k] == ' ';
    SpaceIsNoShape(c, k);
    if |c| > 0 && c[|c| - 1] == '\n' {
      SpaceIsNoShape(c[..|c| - 1], k);
    }
  }

  /** A request under any store of fewer than 500 orders never trips the daily limit. */
  lemma SmallStoreUnderDailyLimit(store: seq<Order>, today: DateTime)
    requires |store| < 500
    ensures CountPublishedOn(store, Date(today)) < 500
  {
  }

  /** The business-rule failure appears exactly when one of the four rules is violated. */
  lemma BusinessRuleFailureIff(r: CreateOrderProfileRequest, today: DateTime, store: seq<Order>, parseUri: string -> Option<Uri>)
    ensures ValidationFailure("", BusinessRulesFailed) in Validate(r, today, store, parseUri) <==>
      || CountPublishedOn(store, Date(today)) >= 500
      || (r.category == Technical && r.price < 20.0)
      || (r.category == Children && HasInappropriateWord(r.title))
      || (r.price > 500.0 && r.stockQuantity > 10)
  {
    var front := TitleFailures(r, store) + AuthorFailures(r) + IsbnFailures(r, store);
    var mid := ScalarFailures(r, today) + CoverFailures(r, parseUri);
    assert ValidationFailure("", BusinessRulesFailed) !in front;
    assert ValidationFailure("", BusinessRulesFailed) !in mid;
    assert LaterFailures(r, today, store, parseUri) == mid + Rule(PassesBusinessRules(r, today, store), "", BusinessRulesFailed);
  }

  /** A Technical order under $20.00 is rejected even with a price the price rule accepts. */
  lemma CheapTechnicalRejected(r: CreateOrderProfileRequest, today: DateTime, store: seq<Order>, parseUri: string -> Option<Uri>)
    requires r.category == Technical && r.price == 19.99
    ensures ValidationFailure("", BusinessRulesFailed) in Validate(r, today, store, parseUri)
    ensures Rule(r.price > 0.0, "Price", PriceNotPositive) + Rule(r.price < 10000.0, "Price", PriceTooHigh) == []
  {
    BusinessRuleFailureIff(r, today, store, parseUri);
  }

  /** A Children order with a listed word in its title fails both the title check and the business rules. */
  lemma ChildrenBadWordFailsTwice(r: CreateOrderProfileRequest, today: DateTime, store: seq<Order>, parseUri: string -> Option<Uri>)
    requires r.category == Children && HasInappropriateWord(r.title)
    ensures ValidationFailure("Title", TitleInappropriate) in Validate(r, today, store, parseUri)
    ensures ValidationFailure("", BusinessRulesFailed) in Validate(r, today, store, parseUri)
  {
    InappropriateTitleIff(r, today, store, parseUri);
    BusinessRuleFailureIff(r, today, store, parseUri);
  }

  /** A missing or empty cover URL is never checked. */
  lemma AbsentCoverNotChecked(r: CreateOrderProfileRequest, today: DateTime, store: seq<Order>, parseUri: string -> Option<Uri>)
    requires r.coverImageUrl == None || r.coverImageUrl == Some([])
    ensures NoFailureFor(Validate(r, today, store, parseUri), "CoverImageUrl")
  {
    var v := Validate(r, today, store, parseUri);
    assert CoverFailures(r, parseUri) == [];
    assert LaterFailures(r, today, store, parseUri)
      == ScalarFailures(r, today) + Rule(PassesBusinessRules(r, today, store), "", BusinessRulesFailed);
  }
}
