/**
 * The AutoMapper value resolvers of OrderManagementAPI
 * (OrderManagementAPI/Features/Order/Resolvers/): author initials, availability label
 * and published-age label. `DateTime.UtcNow` is a parameter; `ToUpper` is ASCII.
 */
module OrderApiResolvers {
  import opened Wrappers
  import opened Text
  import opened Time
  import opened OrderApiModel

  // ---------------------------------------------------------------------------
  // AuthorInitialsResolver
  // ---------------------------------------------------------------------------

  /**
   * `AuthorInitialsResolver.Resolve`: the parts of the author split on ' ' with empty
   * parts dropped; "?" without parts, else the first letters of the first and the last
   * part (one letter when there is one part), upper-cased.
   */
  function AuthorInitials(author: Option<string>): (r: string)
    ensures 1 <= |r| <= 2
    ensures author.None? ==> r == "?"
  {
    var names := if author.None? then [] else Split(author.value);
    if |names| == 0 then "?"
    else if |names| >= 2 then ToUpper([names[0][0], names[|names| - 1][0]])
    else ToUpper([names[0][0]])
  }

  /** An author made of spaces only, the empty string included, has no initials. */
  lemma {:induction false} SpacesOnlyHaveNoInitials(author: string)
    requires forall i :: 0 <= i < |author| ==> author[i] == ' '
    ensures AuthorInitials(Some(author)) == "?"
  {
    SplitEmptyIffSpaces(author);
  }

  /** The first initial is the first non-space character of the author, upper-cased. */
  lemma {:induction false} FirstInitial(author: string, i: nat)
    requires i < |author| && author[i] != ' '
    requires forall j :: 0 <= j < i ==> author[j] == ' '
    ensures AuthorInitials(Some(author))[0] == ToUpperChar(author[i])
  {
    SplitFirst(author, i);
  }

  /** Leading, trailing and repeated spaces never change the initials. */
  lemma SpacingDoesNotMatter(a: string, b: string)
    ensures AuthorInitials(Some([' '] + a)) == AuthorInitials(Some(a))
    ensures AuthorInitials(Some(a + [' '])) == AuthorInitials(Some(a))
    ensures AuthorInitials(Some(a + [' ', ' '] + b)) == AuthorInitials(Some(a + [' '] + b))
  {
    LeadingSpace(a);
    TrailingSpace(a);
    DoubledSpace(a, b);
  }

  /** Middle names are ignored: only the first and the last part count. */
  lemma MiddleNamesIgnored(first: string, middle: string, last: string)
    requires first != [] && ' ' !in first
    requires last != [] && ' ' !in last
    ensures AuthorInitials(Some(first + " " + middle + " " + last)) == ToUpper([first[0], last[0]])
  {
    SplitAroundSpace(first + " " + middle, last);
    SplitAroundSpace(first, middle);
    SplitOfWord(first);
    SplitOfWord(last);
  }

  /** Exactly one part: its first letter, upper-cased. */
  lemma SingleName(name: string)
    requires name != [] && ' ' !in name
    ensures AuthorInitials(Some(name)) == [ToUpperChar(name[0])]
  {
    SplitOfWord(name);
  }

  // ---------------------------------------------------------------------------
  // AvailabilityStatusResolver
  // ---------------------------------------------------------------------------

  /** The `switch` on `StockQuantity` reached for an available order. */
  function StockLabel(stock: int): string {
    if stock == 0 then "Unavailable"
    else if stock == 1 then "Last Copy"
    else if stock <= 5 then "Limited Stock"
    else "In Stock"
  }

  /** `AvailabilityStatusResolver.Resolve` on the two values it reads. */
  function AvailabilityLabel(isAvailable: bool, stock: int): string {
    if !isAvailable then "Out of Stock" else StockLabel(stock)
  }

  /** The resolver on an order, whose `IsAvailable` is computed from its stock. */
  function AvailabilityStatus(o: Order): (status: string)
    ensures status != "Unavailable"
    ensures status == "Out of Stock" <==> o.stockQuantity <= 0
    ensures status == "Last Copy" <==> o.stockQuantity == 1
    ensures status == "Limited Stock" <==> 2 <= o.stockQuantity <= 5
    ensures status == "In Stock" <==> o.stockQuantity > 5
  {
    AvailabilityLabel(o.IsAvailable(), o.stockQuantity)
  }

  /** Without the computed `IsAvailable`, an "available" order could reach the other arms. */
  lemma SwitchArmsWithoutInvariant()
    ensures AvailabilityLabel(true, 0) == "Unavailable"
    ensures AvailabilityLabel(true, -3) == "Limited Stock"
  {
  }

  // ---------------------------------------------------------------------------
  // PublishedAgeResolver
  // ---------------------------------------------------------------------------

  /** `PublishedAgeResolver.Resolve` on the whole days of `UtcNow - PublishedDate`. */
  function PublishedAge(days: int): (status: string)
    ensures status == "New Release" <==> days < 30
    ensures status == "Classic" <==> days >= 1825
    ensures 30 <= days < 365 ==> 1 <= days / 30 <= 12 && status == NatToString(days / 30) + " months old"
    ensures 365 <= days < 1825 ==> 1 <= days / 365 <= 4 && status == NatToString(days / 365) + " years old"
  {
    if days < 30 then "New Release"
    else if days < 365 then NatToString(days / 30) + " months old"
    else if days < 1825 then
      var years := NatToString(days / 365) + " years old";
      assert IsAsciiDigit(years[0]);
      years
    else "Classic"
  }

  /** The resolver given the clock: `(UtcNow - PublishedDate).Days`, truncated toward zero. */
  function PublishedAgeAt(utcNow: DateTime, publishedDate: DateTime): string {
    PublishedAge(WholeDays(utcNow - publishedDate))
  }

  /** The band of a whole-day age: 0 new, 1 months, 2 years, 3 classic. */
  function AgeBand(days: int): (band: nat)
    ensures band <= 3
  {
    if days < 30 then 0 else if days < 365 then 1 else if days < 1825 then 2 else 3
  }

  /** The label is determined by the band, and the band never decreases as the age grows. */
  lemma AgeBandsMonotone(d1: int, d2: int)
    requires d1 <= d2
    ensures AgeBand(d1) <= AgeBand(d2)
    ensures AgeBand(d1) == 0 <==> PublishedAge(d1) == "New Release"
    ensures AgeBand(d1) == 3 <==> PublishedAge(d1) == "Classic"
  {
  }

  /** A publication date in the future, or less than 30 days back, is a new release. */
  lemma FutureIsNewRelease(utcNow: DateTime, publishedDate: DateTime)
    requires publishedDate + 30 * TicksPerDay > utcNow
    ensures PublishedAgeAt(utcNow, publishedDate) == "New Release"
  {
    var d := WholeDays(utcNow - publishedDate);
    if utcNow - publishedDate >= 0 {
      assert d * TicksPerDay <= utcNow - publishedDate < 30 * TicksPerDay;
    }
  }
}
