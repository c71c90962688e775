/**
 * `CreateOrderHandler` of OderManagementAPI
 * (OderManagementAPI/Features/Order/CreateOrderHandler.cs). The handler validates the
 * request itself, rejects an ISBN already stored, adds the mapped order, drops the
 * "all_orders" cache entry and returns the DTO mapped from the new order.
 *
 * The injected `IValidator` is a parameter, since the project registers two validators
 * for the same request type; the order-to-DTO map is a parameter as well, since that
 * project's DTO profile is not part of this model. `Guid.NewGuid()` and
 * `DateTime.UtcNow` are parameters; logging is left out.
 */
module OderHandler {
  import opened Wrappers
  import opened Time
  import opened Numerics
  import opened Validation
  import opened OderModel
  import opened OderMapping
  import OderValidator
  import OderIsbn

  const DuplicateIsbnMessage: string := "An order with this ISBN already exists."
  const AllOrdersKey: string := "all_orders"

  /** The `Orders` set of the database context. */
  class OrderContext {
    var orders: seq<Order>

    constructor (orders: seq<Order>)
      ensures this.orders == orders
    {
      this.orders := orders;
    }
  }

  /** The `IMemoryCache`, as a map from key to cached value. */
  class MemoryCache<V> {
    var entries: map<string, V>

    constructor (entries: map<string, V>)
      ensures this.entries == entries
    {
      this.entries := entries;
    }
  }

  /** How `Handle` ends: the DTO, the `ValidationException`, or the duplicate-ISBN exception. */
  datatype CreateResult<Dto> =
    | Created(dto: Dto)
    | ValidationFailed(errors: seq<ValidationFailure>)
    | Failed(message: string)

  /** `context.Orders.Any(o => o.ISBN == request.ISBN)`: an exact string comparison. */
  predicate IsbnTaken(orders: seq<Order>, isbn: string) {
    exists i :: 0 <= i < |orders| && orders[i].isbn == isbn
  }

  /** The request gets past both checks. */
  predicate Accepted(orders: seq<Order>, r: CreateOrderProfileRequest, failures: seq<ValidationFailure>) {
    failures == [] && !IsbnTaken(orders, r.isbn)
  }

  /** The stored orders after a request. */
  function OrdersAfter(orders: seq<Order>, r: CreateOrderProfileRequest, failures: seq<ValidationFailure>,
                       id: Guid, createdAt: DateTime): (after: seq<Order>)
    ensures Accepted(orders, r, failures) ==> after == orders + [MapToOrder(r, id, createdAt)]
    ensures !Accepted(orders, r, failures) ==> after == orders
  {
    if Accepted(orders, r, failures) then orders + [MapToOrder(r, id, createdAt)] else orders
  }

  /** The cache after a request. */
  function CacheAfter<V>(entries: map<string, V>, orders: seq<Order>, r: CreateOrderProfileRequest,
                         failures: seq<ValidationFailure>): (after: map<string, V>)
    ensures Accepted(orders, r, failures) ==> after == entries - {AllOrdersKey}
    ensures !Accepted(orders, r, failures) ==> after == entries
  {
    if Accepted(orders, r, failures) then entries - {AllOrdersKey} else entries
  }

  /** `Handle`: validate, check the ISBN, add and save, invalidate the list cache, map. */
  method Handle<V, Dto>(context: OrderContext, cache: MemoryCache<V>, request: CreateOrderProfileRequest,
                        validator: CreateOrderProfileRequest -> seq<ValidationFailure>,
                        id: Guid, utcNow: DateTime, toDto: Order -> Dto)
    returns (result: CreateResult<Dto>)
    modifies context, cache
    ensures context.orders == OrdersAfter(old(context.orders), request, validator(request), id, utcNow)
    ensures cache.entries == CacheAfter(old(cache.entries), old(context.orders), request, validator(request))
    ensures validator(request) != [] ==> result == ValidationFailed(validator(request))
    ensures validator(request) == [] && IsbnTaken(old(context.orders), request.isbn) ==>
      result == Failed(DuplicateIsbnMessage)
    ensures Accepted(old(context.orders), request, validator(request)) ==>
      result == Created(toDto(MapToOrder(request, id, utcNow)))
  {
    var errors := validator(request);
    if errors != [] {
      return ValidationFailed(errors);
    }
    var isbnExists := exists i :: 0 <= i < |context.orders| && context.orders[i].isbn == request.isbn;
    if isbnExists {
      return Failed(DuplicateIsbnMessage);
    }
    var order := MapToOrder(request, id, utcNow);
    context.orders := context.orders + [order];
    cache.entries := cache.entries - {AllOrdersKey};
    return Created(toDto(order));
  }

  // ---------------------------------------------------------------------------
  // Properties of the store and cache updates
  // ---------------------------------------------------------------------------

  /** No two stored orders share an ISBN string. */
  predicate UniqueIsbns(orders: seq<Order>) {
    forall i, j :: 0 <= i < j < |orders| ==> orders[i].isbn != orders[j].isbn
  }

  /** The handler keeps stored ISBNs unique, and adds at most one order without touching the others. */
  lemma OrdersAfterKeepsUniqueIsbns(orders: seq<Order>, r: CreateOrderProfileRequest,
                                    failures: seq<ValidationFailure>, id: Guid, createdAt: DateTime)
    requires UniqueIsbns(orders)
    ensures var after := OrdersAfter(orders, r, failures, id, createdAt);
      && UniqueIsbns(after)
      && |orders| <= |after| <= |orders| + 1 && after[..|orders|] == orders
  {
    var after := OrdersAfter(orders, r, failures, id, createdAt);
    if Accepted(orders, r, failures) {
      forall i, j | 0 <= i < j < |after|
        ensures after[i].isbn != after[j].isbn
      {
        if j == |orders| {
          assert after[i] == orders[i];
        }
      }
    }
  }

  /** Only the "all_orders" entry can disappear; every other entry keeps its value. */
  lemma CacheLosesOnlyAllOrders<V>(entries: map<string, V>, orders: seq<Order>, r: CreateOrderProfileRequest,
                                   failures: seq<ValidationFailure>, key: string)
    requires key in entries && key != AllOrdersKey
    ensures var after := CacheAfter(entries, orders, r, failures);
      && key in after && after[key] == entries[key]
      && (Accepted(orders, r, failures) ==> AllOrdersKey !in after)
  {
  }

  /**
   * With the checksum validator injected, every order the handler adds carries a valid
   * ISBN, a positive price and a stock that is not negative.
   */
  lemma AddedOrdersPassTheChecksumValidator(orders: seq<Order>, r: CreateOrderProfileRequest,
                                            now: DateTime, id: Guid, createdAt: DateTime)
    requires Accepted(orders, r, OderValidator.Validate(r, now))
    ensures var o := OrdersAfter(orders, r, OderValidator.Validate(r, now), id, createdAt)[|orders|];
      && OderIsbn.IsbnValid(Some(o.isbn)) && o.price > 0.0 && o.stockQuantity >= 0
      && o.isAvailable == (o.stockQuantity > 0)
  {
    PriceAndCoverRules(r, id, createdAt);
  }

  /** Handling the same request twice stores one order: the second time its ISBN is taken. */
  lemma SecondRequestRejected(orders: seq<Order>, r: CreateOrderProfileRequest,
                              id1: Guid, id2: Guid, createdAt: DateTime)
    ensures var once := OrdersAfter(orders, r, [], id1, createdAt);
      && IsbnTaken(once, r.isbn)
      && OrdersAfter(once, r, [], id2, createdAt) == once
  {
    var once := OrdersAfter(orders, r, [], id1, createdAt);
    if !IsbnTaken(orders, r.isbn) {
      assert once[|orders|].isbn == r.isbn;
    }
  }
}
