/**
 * `EvaluationController.Evaluate`: validate the form, answer 400 with the messages
 * when it fails, otherwise evaluate and answer 200 with the response.
 */
module EvaluationController {
  import opened Wrappers
  import opened Models
  import opened Validation
  import EvaluationRequestValidator
  import EvaluationService

  /** `IEvaluationService.EvaluateAsync`: a response, or the exception it throws. */
  type Evaluator = EvaluationRequest -> Result<EvaluationResponse, Exception>

  /** The action results the endpoint returns. */
  datatype ActionResult = BadRequest(errors: seq<string>) | Ok(response: EvaluationResponse)

  /** What the action did: its result or the exception it let through, and the service calls it made. */
  datatype Dispatched = Dispatched(result: Result<ActionResult, Exception>, serviceCalls: seq<EvaluationRequest>)

  /** The endpoint, with validation first and the service called only on a valid request. */
  function Evaluate(service: Evaluator, request: EvaluationRequest): (d: Dispatched)
    ensures !EvaluationRequestValidator.IsValid(request) ==>
      d == Dispatched(Success(BadRequest(ErrorMessages(EvaluationRequestValidator.Validate(request)))), [])
    ensures EvaluationRequestValidator.IsValid(request) ==> d.serviceCalls == [request]
    ensures EvaluationRequestValidator.IsValid(request) && service(request).Success? ==>
      d.result == Success(Ok(service(request).value))
    ensures EvaluationRequestValidator.IsValid(request) && service(request).Failure? ==>
      d.result == Failure(service(request).error)
  {
    var errors := EvaluationRequestValidator.Validate(request);
    if errors != [] then
      Dispatched(Success(BadRequest(ErrorMessages(errors))), [])
    else
      match service(request)
      case Failure(e) => Dispatched(Failure(e), [request])
      case Success(response) => Dispatched(Success(Ok(response)), [request])
  }

  /**
   * A bad request comes only from a failed validation: it lists one message per
   * failure, in the validators' order, and the service was not called.
   */
  lemma BadRequestMessages(service: Evaluator, request: EvaluationRequest)
    requires Evaluate(service, request).result.Success? && Evaluate(service, request).result.value.BadRequest?
    ensures !EvaluationRequestValidator.IsValid(request)
    ensures var errors := Evaluate(service, request).result.value.errors;
      var failures := EvaluationRequestValidator.Validate(request);
      && |errors| == |failures| > 0
      && (forall i :: 0 <= i < |errors| ==> errors[i] == failures[i].ErrorMessage())
      && Evaluate(service, request).serviceCalls == []
  {
  }

  /** An invalid request is answered without the service: any service gives the same answer. */
  lemma InvalidIgnoresService(s1: Evaluator, s2: Evaluator, request: EvaluationRequest)
    requires !EvaluationRequestValidator.IsValid(request)
    ensures Evaluate(s1, request) == Evaluate(s2, request)
  {
  }

  /** A valid request is answered from the service's answer for that request alone. */
  lemma ValidUsesServiceOnRequest(s1: Evaluator, s2: Evaluator, request: EvaluationRequest)
    requires s1(request) == s2(request)
    ensures Evaluate(s1, request) == Evaluate(s2, request)
  {
  }

  /** The service the application wires in: `EvaluationService` over a classifier. */
  function Wired(classify: EvaluationService.Classifier, guid: string, newLine: string): (service: Evaluator)
    ensures forall r :: service(r) == EvaluationService.Evaluate(classify, r, guid, newLine).result
  {
    r => EvaluationService.Evaluate(classify, r, guid, newLine).result
  }

  /**
   * Through the service: an `Ok` answer means the request passed validation, the
   * classifier succeeded on it, and the response carries the request's invoice id,
   * which is present, and the classifier's classification.
   */
  lemma OkEndToEnd(classify: EvaluationService.Classifier, request: EvaluationRequest, guid: string, newLine: string)
    requires Evaluate(Wired(classify, guid, newLine), request).result.Success?
    requires Evaluate(Wired(classify, guid, newLine), request).result.value.Ok?
    ensures EvaluationRequestValidator.IsValid(request)
    ensures classify(request).Success?
    ensures var response := Evaluate(Wired(classify, guid, newLine), request).result.value.response;
      && request.invoice.Some?
      && request.invoice.value.invoiceId.Some?
      && response.invoiceId == request.invoice.value.invoiceId
      && response.classification == classify(request).value.classification
  {
    assert EvaluationRequestValidator.IsValid(request);
    EvaluationService.EvaluateResponse(classify, request, guid, newLine);
    EvaluationRequestValidator.ValidHasInvoiceId(request);
  }
}
