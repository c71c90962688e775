/**
 * The data shapes of the OrderManagementAPI project: the order-creation request, the
 * stored order, the response DTO and the metrics record carried through a request.
 * Prices are `decimal` in C#, here `real`; instants are `Time.DateTime` ticks;
 * durations (`TimeSpan`) are ticks as well.
 */
module OrderApiModel {
  import opened Wrappers
  import opened Time
  import opened Numerics
  import opened OrderCategories

  datatype CreateOrderProfileRequest = CreateOrderProfileRequest(
    title: string,
    author: string,
    isbn: string,
    category: OrderCategory,
    price: real,
    publishedDate: DateTime,
    coverImageUrl: Option<string>,
    stockQuantity: int)

  /** The initial value of `StockQuantity` on a new request. */
  const DefaultStockQuantity: int := 1

  datatype Order = Order(
    id: Guid,
    title: string,
    author: string,
    isbn: string,
    category: OrderCategory,
    price: real,
    publishedDate: DateTime,
    coverImageUrl: Option<string>,
    stockQuantity: int,
    createdAt: DateTime)
  {
    /** `Order.IsAvailable` is computed, never stored: in stock means available. */
    predicate IsAvailable() {
      stockQuantity > 0
    }
  }

  datatype OrderProfileDto = OrderProfileDto(
    id: Guid,
    title: string,
    author: string,
    isbn: string,
    categoryDisplayName: string,
    price: real,
    formattedPrice: string,
    publishedDate: DateTime,
    createdAt: DateTime,
    coverImageUrl: Option<string>,
    isAvailable: bool,
    stockQuantity: int,
    publishedAge: string,
    authorInitials: string,
    availabilityStatus: string)

  datatype OrderCreationMetrics = OrderCreationMetrics(
    operationId: string,
    orderTitle: string,
    isbn: string,
    category: OrderCategory,
    validationDuration: int,
    databaseSaveDuration: int,
    totalDuration: int,
    success: bool,
    errorReason: Option<string>,
    operationStartTime: DateTime)
}
