/**
 * `CreateOrderHandler` of OrderManagementAPI
 * (OrderManagementAPI/Features/Order/CreateOrderHandler.cs). The `Orders` table is a
 * list the handler appends to; AutoMapper's two maps (request to order, order to DTO)
 * are parameters, since that project's mapping profile is not part of this model;
 * the two stopwatch readings are parameters too. The handler runs no validator.
 */
module OrderApiCreateHandler {
  import opened Wrappers
  import opened OrderApiModel
  import opened OrderApiPipeline
  import opened Validation
  import OrderApiValidator

  const DuplicateIsbnMessage: string := "Order with this ISBN already exists."

  /** The `Orders` table. */
  class OrderStore {
    var orders: seq<Order>

    constructor (orders: seq<Order>)
      ensures this.orders == orders
    {
      this.orders := orders;
    }
  }

  /** The handler's result: the DTO of the new order, or the exception it throws. */
  datatype CreateResult = Created(dto: OrderProfileDto) | Rejected(message: string)

  /** What the table holds after a request: unchanged when the ISBN is taken, else one more order. */
  function StoreAfter(orders: seq<Order>, request: CreateOrderProfileRequest, toOrder: CreateOrderProfileRequest -> Order)
    : (after: seq<Order>)
    ensures OrderApiValidator.IsbnTaken(orders, request.isbn) ==> after == orders
    ensures !OrderApiValidator.IsbnTaken(orders, request.isbn) ==> after == orders + [toOrder(request)]
  {
    if OrderApiValidator.IsbnTaken(orders, request.isbn) then orders else orders + [toOrder(request)]
  }

  /**
   * `Handle`. The ISBN check's time is written to the record the pipeline frames share, on both paths; on a
   * duplicate the exception is thrown and nothing is saved. Otherwise the mapped order
   * is appended and saved, the save time replaces `DatabaseSaveDuration`, and the DTO
   * is mapped from the added order.
   */
  method Handle(store: OrderStore, metrics: MetricsContext, request: CreateOrderProfileRequest,
                toOrder: CreateOrderProfileRequest -> Order, toDto: Order -> OrderProfileDto,
                isbnCheckTime: int, saveTime: int)
    returns (result: CreateResult)
    modifies store, metrics
    ensures store.orders == StoreAfter(old(store.orders), request, toOrder)
    ensures OrderApiValidator.IsbnTaken(old(store.orders), request.isbn) ==>
      && result == Rejected(DuplicateIsbnMessage)
      && metrics.currentMetrics == AddValidationDuration(old(metrics.currentMetrics), isbnCheckTime)
    ensures !OrderApiValidator.IsbnTaken(old(store.orders), request.isbn) ==>
      && result == Created(toDto(toOrder(request)))
      && metrics.currentMetrics
        == SetDatabaseSaveDuration(AddValidationDuration(old(metrics.currentMetrics), isbnCheckTime), saveTime)
  {
    var duplicate := exists i :: 0 <= i < |store.orders| && store.orders[i].isbn == request.isbn;
    if duplicate {
      metrics.currentMetrics := AddValidationDuration(metrics.currentMetrics, isbnCheckTime);
      return Rejected(DuplicateIsbnMessage);
    }
    metrics.currentMetrics := AddValidationDuration(metrics.currentMetrics, isbnCheckTime);
    var order := toOrder(request);
    store.orders := store.orders + [order];
    metrics.currentMetrics := SetDatabaseSaveDuration(metrics.currentMetrics, saveTime);
    return Created(toDto(order));
  }

  /** A create request sent through MediatR: the behavior's `ValidationException`, or the handler's result. */
  datatype SendOutcome = ValidationFailed(failures: seq<ValidationFailure>) | Handled(result: CreateResult)

  /**
   * `ValidationBehavior.Handle` with this handler as `next()`. When a validator fails,
   * the exception is thrown before the handler runs: the table is untouched and only
   * the validation time is written to the record the pipeline frames share. Otherwise
   * the handler runs on the record the behavior left. `metrics` here is that shared
   * record as the behavior and the handler see it; `AwaitSend` gives the caller's view.
   */
  method Send(validators: seq<CreateOrderProfileRequest -> seq<ValidationFailure>>, store: OrderStore,
              metrics: MetricsContext, request: CreateOrderProfileRequest,
              toOrder: CreateOrderProfileRequest -> Order, toDto: Order -> OrderProfileDto,
              validationTime: int, isbnCheckTime: int, saveTime: int)
    returns (outcome: SendOutcome)
    modifies store, metrics
    ensures var afterValidation :=
        if |validators| > 0 then AddValidationDuration(old(metrics.currentMetrics), validationTime)
        else old(metrics.currentMetrics);
      && (Failures(validators, request) != [] ==>
            && outcome == ValidationFailed(Failures(validators, request))
            && store.orders == old(store.orders)
            && metrics.currentMetrics == afterValidation)
      && (Failures(validators, request) == [] && OrderApiValidator.IsbnTaken(old(store.orders), request.isbn) ==>
            && outcome == Handled(Rejected(DuplicateIsbnMessage))
            && store.orders == old(store.orders)
            && metrics.currentMetrics == AddValidationDuration(afterValidation, isbnCheckTime))
      && (Failures(validators, request) == [] && !OrderApiValidator.IsbnTaken(old(store.orders), request.isbn) ==>
            && outcome == Handled(Created(toDto(toOrder(request))))
            && store.orders == old(store.orders) + [toOrder(request)]
            && metrics.currentMetrics
              == SetDatabaseSaveDuration(AddValidationDuration(afterValidation, isbnCheckTime), saveTime))
  {
    var failures := RunValidators(validators, request, validationTime, metrics);
    if failures != [] {
      return ValidationFailed(failures);
    }
    var result := Handle(store, metrics, request, toOrder, toDto, isbnCheckTime, saveTime);
    return Handled(result);
  }

  /**
   * `await mediator.Send(request)` as its caller sees it. `MetricsContext.CurrentMetrics`
   * is an `AsyncLocal` slot, and the behavior and the handler write it inside `async`
   * methods; when those return, the runtime restores the caller's execution context, so
   * the caller keeps the record it had. The outcome and the table are those of `Send`.
   */
  method AwaitSend(validators: seq<CreateOrderProfileRequest -> seq<ValidationFailure>>, store: OrderStore,
                   metrics: MetricsContext, request: CreateOrderProfileRequest,
                   toOrder: CreateOrderProfileRequest -> Order, toDto: Order -> OrderProfileDto,
                   validationTime: int, isbnCheckTime: int, saveTime: int)
    returns (outcome: SendOutcome)
    modifies store, metrics
    ensures outcome ==
      if Failures(validators, request) != [] then ValidationFailed(Failures(validators, request))
      else if OrderApiValidator.IsbnTaken(old(store.orders), request.isbn) then Handled(Rejected(DuplicateIsbnMessage))
      else Handled(Created(toDto(toOrder(request))))
    ensures store.orders ==
      if Failures(validators, request) != [] then old(store.orders)
      else StoreAfter(old(store.orders), request, toOrder)
    ensures metrics.currentMetrics == old(metrics.currentMetrics)
  {
    var callerRecord := metrics.currentMetrics;
    outcome := Send(validators, store, metrics, request, toOrder, toDto, validationTime, isbnCheckTime, saveTime);
    metrics.currentMetrics := callerRecord;
  }

  // ---------------------------------------------------------------------------
  // Properties of the store update
  // ---------------------------------------------------------------------------

  /** No two stored orders share an ISBN string. */
  predicate UniqueIsbns(orders: seq<Order>) {
    forall i, j :: 0 <= i < j < |orders| ==> orders[i].isbn != orders[j].isbn
  }

  /** A handled request never changes or removes a stored order and adds at most one. */
  lemma StoreOnlyGrows(orders: seq<Order>, request: CreateOrderProfileRequest, toOrder: CreateOrderProfileRequest -> Order)
    ensures var after := StoreAfter(orders, request, toOrder);
      |orders| <= |after| <= |orders| + 1 && after[..|orders|] == orders
  {
  }

  /** When the mapping keeps the request's ISBN, the handler keeps ISBNs unique. */
  lemma PreservesUniqueIsbns(orders: seq<Order>, request: CreateOrderProfileRequest, toOrder: CreateOrderProfileRequest -> Order)
    requires UniqueIsbns(orders)
    requires toOrder(request).isbn == request.isbn
    ensures UniqueIsbns(StoreAfter(orders, request, toOrder))
  {
    var after := StoreAfter(orders, request, toOrder);
    if !OrderApiValidator.IsbnTaken(orders, request.isbn) {
      forall i, j | 0 <= i < j < |after|
        ensures after[i].isbn != after[j].isbn
      {
        if j == |orders| {
          assert after[i] == orders[i];
        }
      }
    }
  }

  /** Handling the same request twice adds one order: the second time its ISBN is taken. */
  lemma SecondRequestRejected(orders: seq<Order>, request: CreateOrderProfileRequest, toOrder: CreateOrderProfileRequest -> Order)
    requires toOrder(request).isbn == request.isbn
    ensures OrderApiValidator.IsbnTaken(StoreAfter(orders, request, toOrder), request.isbn)
    ensures StoreAfter(StoreAfter(orders, request, toOrder), request, toOrder) == StoreAfter(orders, request, toOrder)
  {
    var after := StoreAfter(orders, request, toOrder);
    if !OrderApiValidator.IsbnTaken(orders, request.isbn) {
      assert after[|orders|].isbn == request.isbn;
    }
  }

  /** The comparison is exact: a stored hyphenated ISBN does not block the same digits unhyphenated. */
  lemma HyphenatedIsbnIsDifferent(o: Order)
    requires o.isbn == "978-0000000001"
    ensures !OrderApiValidator.IsbnTaken([o], "9780000000001")
  {
    assert |o.isbn| != |"9780000000001"|;
  }
}
