/**
 * The AutoMapper value resolvers of OderManagementAPI
 * (OderManagementAPI/Features/Order/Resolvers/): author initials and availability
 * label, compared with their OrderManagementAPI counterparts.
 */
module OderResolvers {
  import opened Wrappers
  import opened Text
  import opened Time
  import opened Numerics
  import opened OderModel
  import opened OderMapping
  import OrderApiResolvers

  // ---------------------------------------------------------------------------
  // AuthorInitialsResolver
  // ---------------------------------------------------------------------------

  /**
   * `AuthorInitialsResolver.Resolve`: "?" for a null or blank author; otherwise the
   * parts split on ' ' with empty parts dropped, and the upper-cased first letters of
   * the first and the last part, or of the only part.
   */
  function AuthorInitials(author: Option<string>): (r: string)
    ensures 1 <= |r| <= 2
    ensures author.None? || IsWhiteSpaceOnly(author.value) ==> r == "?"
  {
    if author.None? || IsWhiteSpaceOnly(author.value) then "?"
    else
      var parts := Split(author.value);
      if |parts| > 1 then ToUpper([parts[0][0], parts[|parts| - 1][0]])
      else if |parts| == 1 then ToUpper([parts[0][0]])
      else "?"
  }

  /** A string that is not blank has at least one part, so the final `return "?"` is never reached. */
  lemma FinalFallbackUnreachable(author: string)
    requires !IsWhiteSpaceOnly(author)
    ensures |Split(author)| >= 1
  {
    var i :| 0 <= i < |author| && !IsWhiteSpace(author[i]);
    assert author[i] != ' ';
    SplitEmptyIffSpaces(author);
  }

  /**
   * The two projects' resolvers agree on a null author, on an author made of spaces
   * only, and on every author with a character that is not white space.
   */
  lemma AgreesWithOrderApi(author: Option<string>)
    requires author.None? || !IsWhiteSpaceOnly(author.value)
      || forall i :: 0 <= i < |author.value| ==> author.value[i] == ' '
    ensures AuthorInitials(author) == OrderApiResolvers.AuthorInitials(author)
  {
    if author.Some? {
      if forall i :: 0 <= i < |author.value| ==> author.value[i] == ' ' {
        OrderApiResolvers.SpacesOnlyHaveNoInitials(author.value);
        assert IsWhiteSpaceOnly(author.value);
      } else {
        FinalFallbackUnreachable(author.value);
      }
    }
  }

  /** They differ on other white space: a lone tab is "?" here and its own initial there. */
  lemma TabDiffers()
    ensures AuthorInitials(Some("\t")) == "?"
    ensures OrderApiResolvers.AuthorInitials(Some("\t")) == "\t"
  {
    assert IsWhiteSpace('\t');
    assert Word("\t") == "\t";
    assert Split("\t") == ["\t"] by {
      assert "\t"[1..] == [];
    }
  }

  // ---------------------------------------------------------------------------
  // AvailabilityStatusResolver
  // ---------------------------------------------------------------------------

  /** `AvailabilityStatusResolver.Resolve` on the two members it reads. */
  function AvailabilityStatus(isAvailable: bool, stock: int): (status: string)
    ensures !isAvailable <==> status == "Out of Stock"
    ensures status in {"Out of Stock", "Last Copy", "Limited Stock", "In Stock"}
  {
    if !isAvailable then "Out of Stock"
    else if stock == 1 then "Last Copy"
    else if stock <= 5 then "Limited Stock"
    else "In Stock"
  }

  /** When the flag is `stock > 0`, as the mapping sets it, both projects' labels agree. */
  lemma AgreesWithOrderApiWhenFlagMatchesStock(isAvailable: bool, stock: int)
    requires isAvailable == (stock > 0)
    ensures AvailabilityStatus(isAvailable, stock) == OrderApiResolvers.AvailabilityLabel(isAvailable, stock)
  {
  }

  /** Without that agreement, an "available" order with no stock is labelled "Limited Stock". */
  lemma AvailableWithoutStock(stock: int)
    requires stock <= 0
    ensures AvailabilityStatus(true, stock) == "Limited Stock"
  {
  }

  /** On a mapped order the label is a function of the stock alone, one label per range. */
  lemma MappedOrderLabels(r: CreateOrderProfileRequest, id: Guid, createdAt: DateTime)
    ensures var o := MapToOrder(r, id, createdAt);
      var status := AvailabilityStatus(o.isAvailable, o.stockQuantity);
      && (status == "Out of Stock" <==> r.stockQuantity <= 0)
      && (status == "Last Copy" <==> r.stockQuantity == 1)
      && (status == "Limited Stock" <==> 2 <= r.stockQuantity <= 5)
      && (status == "In Stock" <==> r.stockQuantity > 5)
  {
  }
}
