/**
 * The request-to-order map of OderManagementAPI
 * (OderManagementAPI/Features/Order/AdvancedOrderMappingProfile.cs). `Guid.NewGuid()`
 * and `DateTime.UtcNow` are the parameters `id` and `createdAt`; members the profile
 * does not configure are copied by name.
 */
module OderMapping {
  import opened Wrappers
  import opened Time
  import opened Numerics
  import opened OrderCategories
  import opened OderModel

  /** The Children discount, `0.9m`. */
  const ChildrenPriceFactor: real := 0.9

  /** `mapper.Map<Order>(request)` with the profile's member rules. */
  function MapToOrder(r: CreateOrderProfileRequest, id: Guid, createdAt: DateTime): (o: Order)
    ensures o.id == id && o.createdAt == createdAt && o.updatedAt.None?
    ensures o.title == r.title && o.author == r.author && o.isbn == r.isbn && o.category == r.category
    ensures o.publishedDate == r.publishedDate && o.stockQuantity == r.stockQuantity
    ensures o.isAvailable <==> r.stockQuantity > 0
  {
    Order(
      id := id,
      title := r.title,
      author := r.author,
      isbn := r.isbn,
      category := r.category,
      price := if r.category == Children then r.price * ChildrenPriceFactor else r.price,
      publishedDate := r.publishedDate,
      coverImageUrl := if r.category == Children then None else r.coverImageUrl,
      isAvailable := r.stockQuantity > 0,
      stockQuantity := r.stockQuantity,
      createdAt := createdAt,
      updatedAt := None)
  }

  /**
   * Children's orders cost nine tenths of the requested price and lose their cover URL;
   * every other category keeps both. A positive price stays positive and never grows.
   */
  lemma PriceAndCoverRules(r: CreateOrderProfileRequest, id: Guid, createdAt: DateTime)
    ensures var o := MapToOrder(r, id, createdAt);
      && (r.category == Children ==> 10.0 * o.price == 9.0 * r.price && o.coverImageUrl.None?)
      && (r.category != Children ==> o.price == r.price && o.coverImageUrl == r.coverImageUrl)
      && (r.price > 0.0 ==> 0.0 < o.price <= r.price)
      && (o.price == r.price <==> r.category != Children || r.price == 0.0)
  {
  }
}
