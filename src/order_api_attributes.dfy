/**
 * `PriceRangeAttribute` (OrderManagementAPI/ValidationAttributes/PriceRangeAttribute.cs):
 * an inclusive range check on a `decimal`. The bounds are fixed when the attribute is
 * constructed. The message shows both bounds in the current culture's currency format,
 * which is a parameter here (`formatCurrency`).
 */
module OrderApiPriceRange {
  import opened DataAnnotations

  datatype PriceRangeAttribute = PriceRangeAttribute(minPrice: real, maxPrice: real) {

    /** `GenerateErrorMessage`. */
    function ErrorMessage(formatCurrency: real -> string): string {
      "The price must be between " + formatCurrency(minPrice) + " and "
        + formatCurrency(maxPrice) + "."
    }

    /** `IsValid`: null passes, a non-decimal fails, a decimal must lie in [min, max]. */
    function IsValid(value: AttributeValue, formatCurrency: real -> string): ValidationResult {
      match value
      case Null => Success
      case Dec(price) =>
        if price < minPrice || price > maxPrice then Failure(ErrorMessage(formatCurrency))
        else Success
      case _ => Failure("Invalid price type.")
    }
  }

  /**
   * The attribute on `CreateOrderProfileRequest.Price`: `[PriceRange(0.01, 9999.99)]`.
   * Converting these two `double` literals to `decimal` rounds to 15 significant
   * digits, which gives exactly 0.01 and 9999.99.
   */
  const RequestPriceRange: PriceRangeAttribute := PriceRangeAttribute(0.01, 9999.99)

  /** The verdict on every kind of value: the type test first, then the inclusive range. */
  lemma Verdict(attr: PriceRangeAttribute, value: AttributeValue, formatCurrency: real -> string)
    ensures value.Null? ==> attr.IsValid(value, formatCurrency) == Success
    ensures !value.Null? && !value.Dec? ==>
      attr.IsValid(value, formatCurrency) == Failure("Invalid price type.")
    ensures value.Dec? ==>
      (attr.IsValid(value, formatCurrency) == Success <==> attr.minPrice <= value.d <= attr.maxPrice)
  {
  }

  /** Below-range and above-range prices get the very same message. */
  lemma SameMessageBothSides(attr: PriceRangeAttribute, low: real, high: real, formatCurrency: real -> string)
    requires low < attr.minPrice && high > attr.maxPrice
    ensures attr.IsValid(Dec(low), formatCurrency) == attr.IsValid(Dec(high), formatCurrency)
    ensures attr.IsValid(Dec(low), formatCurrency) == Failure(attr.ErrorMessage(formatCurrency))
  {
  }

  /** On the request's bounds: 0.01 and 9999.99 pass, 0 and 10000 fail. */
  lemma RequestBoundaries(formatCurrency: real -> string)
    ensures RequestPriceRange.IsValid(Dec(0.01), formatCurrency) == Success
    ensures RequestPriceRange.IsValid(Dec(9999.99), formatCurrency) == Success
    ensures RequestPriceRange.IsValid(Dec(0.0), formatCurrency).Failure?
    ensures RequestPriceRange.IsValid(Dec(10000.0), formatCurrency).Failure?
  {
  }

  /** A price with at most two decimal places: a whole number of cents. */
  predicate WholeCents(price: real) {
    (price * 100.0).Floor as real == price * 100.0
  }

  /**
   * For prices with at most two decimal places, `[PriceRange(0.01, 9999.99)]` accepts
   * exactly the prices FluentValidation's `GreaterThan(0)` and `LessThan(10000)` accept.
   */
  lemma {:induction false} AgreesWithFluentRuleOnCents(price: real, formatCurrency: real -> string)
    requires WholeCents(price)
    ensures RequestPriceRange.IsValid(Dec(price), formatCurrency) == Success
      <==> 0.0 < price < 10000.0
  {
    var k := (price * 100.0).Floor;
    assert price == k as real / 100.0;
    if 0.0 < price {
      assert 0 < k;
      assert 1 <= k;
      assert 0.01 <= price;
    }
    if price < 10000.0 {
      assert k < 1000000;
      assert k <= 999999;
      assert price <= 9999.99;
    }
  }

  /** Without the two-decimal premise the two rules differ: 0.005 passes one and fails the other. */
  lemma DisagreeOnFinerPrices(formatCurrency: real -> string)
    ensures RequestPriceRange.IsValid(Dec(0.005), formatCurrency).Failure? && 0.0 < 0.005 < 10000.0
  {
  }
}

/**
 * `OrderCategoryAttribute` (OrderManagementAPI/ValidationAttributes/OrderCategoryAttribute.cs):
 * the value must be an `OrderCategory` whose name is one of a list fixed at
 * construction, compared without regard to case.
 */
module OrderApiCategoryAttribute {
  import opened Text
  import opened OrderCategories
  import opened DataAnnotations

  const InvalidTypeMessage: string := "The category must be a valid OrderCategory enum value."

  datatype OrderCategoryAttribute = OrderCategoryAttribute(allowedCategories: seq<string>) {

    /** `GenerateErrorMessage`: the allowed names joined by ", ". */
    function GenerateErrorMessage(): string {
      "The category must be one of the following: " + Join(", ", allowedCategories) + "."
    }

    /** `_allowedCategories.Contains(name, StringComparer.OrdinalIgnoreCase)`. */
    predicate Allows(name: string) {
      exists k :: 0 <= k < |allowedCategories| && EqualsIgnoreCase(allowedCategories[k], name)
    }

    /** `IsValid`. */
    function IsValid(value: AttributeValue): ValidationResult {
      match value
      case Null => Success
      case Category(c) => if !Allows(Name(c)) then Failure(GenerateErrorMessage()) else Success
      case _ => Failure(InvalidTypeMessage)
    }
  }

  /** The attribute on `CreateOrderProfileRequest.Category`. */
  const RequestCategories: OrderCategoryAttribute :=
    OrderCategoryAttribute(["Fiction", "NonFiction", "Technical", "Children", "Science", "History"])

  /** The verdict on every kind of value. */
  lemma Verdict(attr: OrderCategoryAttribute, value: AttributeValue)
    ensures value.Null? ==> attr.IsValid(value) == Success
    ensures !value.Null? && !value.Category? ==> attr.IsValid(value) == Failure(InvalidTypeMessage)
    ensures value.Category? ==>
      (attr.IsValid(value) == Success <==>
        exists k :: 0 <= k < |attr.allowedCategories| && ToUpper(attr.allowedCategories[k]) == ToUpper(Name(value.c)))
    ensures value.Category? && attr.IsValid(value) != Success ==>
      attr.IsValid(value) == Failure(attr.GenerateErrorMessage())
  {
  }

  /** Case does not matter: an allowed list in any casing accepts the same categories. */
  lemma CaseInsensitive(names: seq<string>, c: OrderCategory)
    ensures (OrderCategoryAttribute(names).IsValid(Category(c)) == Success) <==>
      (OrderCategoryAttribute(seq(|names|, i requires 0 <= i < |names| => ToUpper(names[i]))).IsValid(Category(c)) == Success)
  {
    var up := seq(|names|, i requires 0 <= i < |names| => ToUpper(names[i]));
    forall k | 0 <= k < |names|
      ensures ToUpper(up[k]) == ToUpper(names[k])
    {
      assert ToUpper(ToUpper(names[k])) == ToUpper(names[k]);
    }
  }

  /** The name of a value that is no member starts with a digit or '-', never a letter. */
  lemma UndefinedNameStart(n: int)
    ensures Name(Undefined(n)) != [] && !IsAsciiLetter(ToUpper(Name(Undefined(n)))[0])
  {
  }

  /** With the request's list, exactly the six declared members pass. */
  lemma {:induction false} RequestCategoriesAcceptExactlyMembers(c: OrderCategory)
    ensures RequestCategories.IsValid(Category(c)) == Success <==> IsDefined(c)
  {
    var names := RequestCategories.allowedCategories;
    if c.Undefined? {
      UndefinedNameStart(c.code);
      forall k | 0 <= k < |names|
        ensures ToUpper(names[k]) != ToUpper(Name(c))
      {
        assert IsAsciiLetter(ToUpper(names[k])[0]);
      }
    } else {
      var k := match c
        case Fiction => 0 case NonFiction => 1 case Technical => 2
        case Children => 3 case Science => 4 case History => 5;
      assert EqualsIgnoreCase(names[k], Name(c));
    }
  }
}

/**
 * The annotations declared on `CreateOrderProfileRequest`
 * (OrderManagementAPI/Features/Order/CreateOrderProfileRequest.cs) as
 * `Validator.TryValidateObject` applies them: property by property in declaration
 * order; a failing `[Required]` hides the other attributes of its property.
 */
module OrderApiRequestAnnotations {
  import opened Text
  import opened OrderCategories
  import opened DataAnnotations
  import opened OrderApiModel
  import OrderApiIsbnAttribute
  import opened OrderApiPriceRange
  import opened OrderApiCategoryAttribute

  /** `[Required]` on a string: null, empty and whitespace-only strings fail. */
  predicate RequiredHolds(s: string) {
    !IsWhiteSpaceOnly(s)
  }

  /** `[StringLength(max, MinimumLength = min)]`. */
  predicate LengthBetween(s: string, min: nat, max: nat) {
    min <= Utf16Length(s) <= max
  }

  function One(passes: bool, member: string, message: string): seq<MemberError> {
    if passes then [] else [MemberError(member, message)]
  }

  function TitleErrors(title: string): (errors: seq<MemberError>)
    ensures errors == [] <==> !IsWhiteSpaceOnly(title) && Utf16Length(title) <= 200
  {
    if !RequiredHolds(title) then [MemberError("Title", "The order title is required.")]
    else One(LengthBetween(title, 1, 200), "Title", "The title must be between 1 and 200 characters long.")
  }

  function AuthorErrors(author: string): (errors: seq<MemberError>)
    ensures errors == [] <==> !IsWhiteSpaceOnly(author) && 2 <= Utf16Length(author) <= 100
  {
    if !RequiredHolds(author) then [MemberError("Author", "The author's name is required.")]
    else One(LengthBetween(author, 2, 100), "Author", "The author's name must be between 2 and 100 characters long.")
  }

  function IsbnErrors(isbn: string): (errors: seq<MemberError>)
    ensures var clean := OrderApiIsbnAttribute.CleanIsbn(isbn);
      errors == [] <==> !IsWhiteSpaceOnly(isbn) && (clean == [] || OrderApiIsbnAttribute.MatchesIsbnPattern(clean))
  {
    OrderApiIsbnAttribute.StringVerdict(isbn);
    if !RequiredHolds(isbn) then [MemberError("ISBN", "The ISBN is required.")]
    else match OrderApiIsbnAttribute.IsValid(Str(isbn))
      case Success => []
      case Failure(m) => [MemberError("ISBN", m)]
  }

  /** `[Required]` never fails on an enum; the category attribute decides. */
  function CategoryErrors(c: OrderCategory): (errors: seq<MemberError>)
    ensures errors == [] <==> IsDefined(c)
  {
    RequestCategoriesAcceptExactlyMembers(c);
    match RequestCategories.IsValid(Category(c))
    case Success => []
    case Failure(m) => [MemberError("Category", m)]
  }

  function PriceErrors(price: real, formatCurrency: real -> string): (errors: seq<MemberError>)
    ensures errors == [] <==> 0.01 <= price <= 9999.99
  {
    match RequestPriceRange.IsValid(Dec(price), formatCurrency)
    case Success => []
    case Failure(m) => [MemberError("Price", m)]
  }

  /** `[Range(0, 100000)]`, bounds inclusive. */
  function StockErrors(stock: int): (errors: seq<MemberError>)
    ensures errors == [] <==> 0 <= stock <= 100000
  {
    One(0 <= stock <= 100000, "StockQuantity", "The stock quantity must be between 0 and 100,000.")
  }

  /**
   * All annotation errors of a request. `PublishedDate`'s `[Required]` never fails on a
   * `DateTime`, and `CoverImageUrl` carries no attribute.
   */
  function AnnotationErrors(r: CreateOrderProfileRequest, formatCurrency: real -> string): (errors: seq<MemberError>)
    ensures errors == [] <==>
      && !IsWhiteSpaceOnly(r.title) && Utf16Length(r.title) <= 200
      && !IsWhiteSpaceOnly(r.author) && 2 <= Utf16Length(r.author) <= 100
      && !IsWhiteSpaceOnly(r.isbn)
      && (OrderApiIsbnAttribute.CleanIsbn(r.isbn) == [] || OrderApiIsbnAttribute.MatchesIsbnPattern(OrderApiIsbnAttribute.CleanIsbn(r.isbn)))
      && IsDefined(r.category)
      && 0.01 <= r.price <= 9999.99
      && 0 <= r.stockQuantity <= 100000
  {
    TitleErrors(r.title) + AuthorErrors(r.author) + IsbnErrors(r.isbn) + CategoryErrors(r.category)
      + PriceErrors(r.price, formatCurrency) + StockErrors(r.stockQuantity)
  }

  /** The request's default stock quantity satisfies its own range. */
  lemma DefaultStockInRange()
    ensures StockErrors(DefaultStockQuantity) == []
  {
  }

  /**
   * `[Required]` and `[ValidISBN]` leave a gap: an ISBN made of hyphens only is not
   * whitespace, so `[Required]` holds, and it is empty after cleaning, so the ISBN
   * attribute passes it too.
   */
  lemma HyphensOnlyIsbnPasses()
    ensures IsbnErrors("---") == []
  {
    assert !IsWhiteSpaceOnly("---") by { assert !IsWhiteSpace("---"[0]); }
    assert Remove("---", '-') == [];
  }
}
