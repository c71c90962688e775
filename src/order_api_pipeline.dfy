/**
 * The MediatR `ValidationBehavior` of OrderManagementAPI
 * (OrderManagementAPI/Common/Behaviors/ValidationBehavior.cs) and the metrics record
 * it shares with the create handler (`MetricsContext.CurrentMetrics`, an `AsyncLocal`
 * slot, here a field of one `MetricsContext` object passed explicitly). The field is the
 * record as the pipeline frames see it: a write flows down into `next()`, but not back
 * to the code that awaits the pipeline (`OrderApiCreateHandler.AwaitSend`).
 *
 * Validators are functions from the request to their failures; `next()` is the value
 * the rest of the pipeline would produce; stopwatch readings are parameters.
 */
module OrderApiPipeline {
  import opened Wrappers
  import opened Validation
  import opened OrderApiModel

  // ---------------------------------------------------------------------------
  // The metrics record shared by the pipeline frames
  // ---------------------------------------------------------------------------

  class MetricsContext {
    var currentMetrics: Option<OrderCreationMetrics>

    constructor (currentMetrics: Option<OrderCreationMetrics>)
      ensures this.currentMetrics == currentMetrics
    {
      this.currentMetrics := currentMetrics;
    }
  }

  /** `metrics with { ValidationDuration = ValidationDuration.Add(elapsed) }`, when there is a record. */
  function AddValidationDuration(metrics: Option<OrderCreationMetrics>, elapsed: int): (r: Option<OrderCreationMetrics>)
    ensures r.None? <==> metrics.None?
  {
    match metrics
    case None => None
    case Some(m) => Some(m.(validationDuration := m.validationDuration + elapsed))
  }

  /** `metrics with { DatabaseSaveDuration = elapsed }`, when there is a record. */
  function SetDatabaseSaveDuration(metrics: Option<OrderCreationMetrics>, elapsed: int): (r: Option<OrderCreationMetrics>)
    ensures r.None? <==> metrics.None?
  {
    match metrics
    case None => None
    case Some(m) => Some(m.(databaseSaveDuration := elapsed))
  }

  /** Only `ValidationDuration` changes, and it grows by exactly the elapsed time. */
  lemma AddValidationDurationKeepsOtherFields(m: OrderCreationMetrics, elapsed: int)
    ensures var n := AddValidationDuration(Some(m), elapsed).value;
      && n.validationDuration == m.validationDuration + elapsed
      && n.operationId == m.operationId && n.orderTitle == m.orderTitle && n.isbn == m.isbn
      && n.category == m.category && n.databaseSaveDuration == m.databaseSaveDuration
      && n.totalDuration == m.totalDuration && n.success == m.success
      && n.errorReason == m.errorReason && n.operationStartTime == m.operationStartTime
  {
  }

  /** Two successive additions add up: the handler's and the pipeline's timings accumulate. */
  lemma AddValidationDurationTwice(metrics: Option<OrderCreationMetrics>, a: int, b: int)
    ensures AddValidationDuration(AddValidationDuration(metrics, a), b) == AddValidationDuration(metrics, a + b)
  {
  }

  /** Only `DatabaseSaveDuration` changes; a later save replaces an earlier one. */
  lemma SetDatabaseSaveDurationReplaces(metrics: Option<OrderCreationMetrics>, a: int, b: int)
    ensures SetDatabaseSaveDuration(SetDatabaseSaveDuration(metrics, a), b) == SetDatabaseSaveDuration(metrics, b)
    ensures metrics.Some? ==>
      SetDatabaseSaveDuration(metrics, a).value.(databaseSaveDuration := metrics.value.databaseSaveDuration) == metrics.value
  {
  }

  // ---------------------------------------------------------------------------
  // Failure aggregation
  // ---------------------------------------------------------------------------

  /** `_validators.Select(v => v.ValidateAsync(context))`: every validator on the same request. */
  function Results<Req>(validators: seq<Req -> seq<ValidationFailure>>, request: Req): (rs: seq<seq<ValidationFailure>>)
    ensures |rs| == |validators|
    ensures forall k :: 0 <= k < |rs| ==> rs[k] == validators[k](request)
  {
    seq(|validators|, k requires 0 <= k < |validators| => validators[k](request))
  }

  /** `.Where(r => r.Errors.Any())`. */
  function NonEmpty(rs: seq<seq<ValidationFailure>>): (kept: seq<seq<ValidationFailure>>)
    ensures |kept| <= |rs|
    ensures forall k :: 0 <= k < |kept| ==> kept[k] != []
  {
    if rs == [] then []
    else (if rs[0] == [] then [] else [rs[0]]) + NonEmpty(rs[1..])
  }

  /** `.SelectMany(r => r.Errors)`. */
  function Flatten(rs: seq<seq<ValidationFailure>>): seq<ValidationFailure> {
    if rs == [] then [] else rs[0] + Flatten(rs[1..])
  }

  /** The failure list the behavior builds. */
  function Failures<Req>(validators: seq<Req -> seq<ValidationFailure>>, request: Req): seq<ValidationFailure> {
    Flatten(NonEmpty(Results(validators, request)))
  }

  /** Dropping the empty results changes nothing: the failures are all validators' failures, in order. */
  lemma {:induction false} FlattenNonEmpty(rs: seq<seq<ValidationFailure>>)
    ensures Flatten(NonEmpty(rs)) == Flatten(rs)
  {
    if rs != [] {
      FlattenNonEmpty(rs[1..]);
      var rest := NonEmpty(rs[1..]);
      if rs[0] != [] {
        assert ([rs[0]] + rest)[1..] == rest;
        assert Flatten([rs[0]] + rest) == rs[0] + Flatten(rest);
      } else {
        assert NonEmpty(rs) == rest;
        assert Flatten(rs) == [] + Flatten(rs[1..]);
      }
    }
  }

  lemma {:induction false} FlattenConcat(a: seq<seq<ValidationFailure>>, b: seq<seq<ValidationFailure>>)
    ensures Flatten(a + b) == Flatten(a) + Flatten(b)
  {
    if a == [] {
      assert a + b == b;
    } else {
      assert (a + b)[1..] == a[1..] + b;
      FlattenConcat(a[1..], b);
    }
  }

  /** The flattened list is empty exactly when every result is. */
  lemma {:induction false} FlattenEmptyIff(rs: seq<seq<ValidationFailure>>)
    ensures Flatten(rs) == [] <==> forall k :: 0 <= k < |rs| ==> rs[k] == []
  {
    if rs != [] {
      FlattenEmptyIff(rs[1..]);
      assert forall k :: 1 <= k < |rs| ==> rs[k] == rs[1..][k - 1];
    }
  }

  /**
   * The failures are the concatenation of every validator's failures in validator order:
   * those of `v1 + v2` are those of `v1` followed by those of `v2`, and there are none
   * exactly when every validator passes.
   */
  lemma FailuresConcat<Req>(v1: seq<Req -> seq<ValidationFailure>>, v2: seq<Req -> seq<ValidationFailure>>, request: Req)
    ensures Failures(v1 + v2, request) == Failures(v1, request) + Failures(v2, request)
    ensures Failures(v1, request) == [] <==> forall k :: 0 <= k < |v1| ==> v1[k](request) == []
  {
    var r1, r2 := Results(v1, request), Results(v2, request);
    assert Results(v1 + v2, request) == r1 + r2;
    FlattenNonEmpty(r1 + r2);
    FlattenNonEmpty(r1);
    FlattenNonEmpty(r2);
    FlattenConcat(r1, r2);
    FlattenEmptyIff(r1);
  }

  /** One validator alone contributes exactly its own failures. */
  lemma SingleValidator<Req>(v: Req -> seq<ValidationFailure>, request: Req)
    ensures Failures([v], request) == v(request)
  {
    FlattenNonEmpty(Results([v], request));
    assert Flatten(Results([v], request)) == v(request) + Flatten([]);
  }

  // ---------------------------------------------------------------------------
  // Handle
  // ---------------------------------------------------------------------------

  /** How the behavior ends: `ValidationException` with the failures, or `next()`'s response. */
  datatype Outcome<Resp> = Thrown(failures: seq<ValidationFailure>) | Continued(response: Resp)

  /**
   * The part of `ValidationBehavior.Handle` before it throws or calls `next()`: with
   * validators, all of them run on the one request and the elapsed time is added to
   * the shared record; with none, nothing happens. The result is the aggregated
   * failures.
   */
  method RunValidators<Req>(validators: seq<Req -> seq<ValidationFailure>>, request: Req, elapsed: int,
                            metrics: MetricsContext)
    returns (failures: seq<ValidationFailure>)
    modifies metrics
    ensures failures == Failures(validators, request)
    ensures failures != [] <==> exists k :: 0 <= k < |validators| && validators[k](request) != []
    ensures metrics.currentMetrics
      == if |validators| > 0 then AddValidationDuration(old(metrics.currentMetrics), elapsed)
         else old(metrics.currentMetrics)
  {
    failures := Failures(validators, request);
    FailuresConcat(validators, [], request);
    if |validators| > 0 {
      metrics.currentMetrics := AddValidationDuration(metrics.currentMetrics, elapsed);
    }
  }

  /**
   * `ValidationBehavior.Handle` with `next()`'s response given as a value. With no
   * validators, `next()` runs and nothing else happens. Otherwise the elapsed time is
   * added to the shared record, and the aggregated failures, when there are any, are
   * thrown instead of calling `next()`. `OrderApiCreateHandler.Send` is this behavior
   * with the create handler as `next()`, where its effects are stated.
   */
  method Handle<Req, Resp>(validators: seq<Req -> seq<ValidationFailure>>, request: Req, next: Resp,
                           elapsed: int, metrics: MetricsContext)
    returns (outcome: Outcome<Resp>)
    modifies metrics
    ensures |validators| == 0 ==>
      outcome == Continued(next) && metrics.currentMetrics == old(metrics.currentMetrics)
    ensures |validators| > 0 ==>
      metrics.currentMetrics == AddValidationDuration(old(metrics.currentMetrics), elapsed)
    ensures outcome.Thrown? <==> exists k :: 0 <= k < |validators| && validators[k](request) != []
    ensures outcome.Thrown? ==> outcome.failures == Failures(validators, request)
    ensures outcome.Continued? ==> outcome.response == next
  {
    var failures := RunValidators(validators, request, elapsed, metrics);
    if failures != [] {
      return Thrown(failures);
    }
    return Continued(next);
  }
}
