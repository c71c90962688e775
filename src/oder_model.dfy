/**
 * The data shapes of the second order project, OderManagementAPI: its positional
 * request record (OderManagementAPI/Features/Order/CreateOrderProfileRequest.cs) and
 * the stored order. That project's `Order` class is not part of this model; its
 * members are those the mapping profile and the resolvers read and write, with a
 * stored `IsAvailable` and a nullable `UpdatedAt`.
 */
module OderModel {
  import opened Wrappers
  import opened Time
  import opened Numerics
  import opened OrderCategories

  datatype CreateOrderProfileRequest = CreateOrderProfileRequest(
    title: string,
    author: string,
    isbn: string,
    category: OrderCategory,
    price: real,
    publishedDate: DateTime,
    coverImageUrl: Option<string>,
    stockQuantity: int)

  /** The default of the record's last parameter, `int StockQuantity = 1`. */
  const DefaultStockQuantity: int := 1

  datatype Order = Order(
    id: Guid,
    title: string,
    author: string,
    isbn: string,
    category: OrderCategory,
    price: real,
    publishedDate: DateTime,
    coverImageUrl: Option<string>,
    isAvailable: bool,
    stockQuantity: int,
    createdAt: DateTime,
    updatedAt: Option<DateTime>)
}
