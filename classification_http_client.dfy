/**
 * `ClassificationHttpClient`: POST the request to `classify` under a retry policy,
 * check the response, then hand its content to the JSON reader.
 */
module ClassificationHttpClient {
  import opened Wrappers
  import opened Models
  import opened Http
  import opened Retry

  function Pow2(k: nat): (p: nat)
    ensures p >= 1
  {
    if k == 0 then 1 else 2 * Pow2(k - 1)
  }

  /** `Handle<HttpRequestException>().Or<TimeoutException>()`. */
  predicate IsTransient(e: Exception) {
    e.HttpRequestException? || e.TimeoutException?
  }

  /** `WaitAndRetryAsync(3, retryAttempt => 2^retryAttempt seconds)` over the transient exceptions. */
  const ClassificationPolicy: RetryPolicy := RetryPolicy(3, IsTransient, k => Pow2(k))

  function Sum(s: seq<nat>): nat {
    if s == [] then 0 else s[0] + Sum(s[1..])
  }

  /**
   * At most four attempts; the waits are 2, 4 and 8 seconds, as many as there were
   * retries, so they add up to at most 14 seconds.
   */
  lemma ClassificationWaits(outcomes: seq<Outcome<RestResponse>>)
    requires |outcomes| >= 4
    ensures var e := Execute(ClassificationPolicy, outcomes);
      && e.attempts <= 4
      && e.waits == [2, 4, 8][..e.attempts - 1]
      && Sum(e.waits) <= 14
  {
    var e := Execute(ClassificationPolicy, outcomes);
    ExecuteCharacterized(ClassificationPolicy, outcomes);
    assert Pow2(1) == 2 && Pow2(2) == 4 && Pow2(3) == 8;
    assert e.waits == [2, 4, 8][..e.attempts - 1];
    assert Sum([2, 4, 8][..0]) == 0;
    assert Sum([2, 4, 8][..1]) == 2 by { assert [2, 4, 8][..1] == [2]; }
    assert Sum([2, 4, 8][..2]) == 6 by { assert [2, 4, 8][..2] == [2, 4]; }
    assert Sum([2, 4, 8][..3]) == 14 by { assert [2, 4, 8][..3] == [2, 4, 8]; }
  }

  /**
   * Two timeouts and then a response: three attempts, waits of 2 and 4 seconds, and
   * the response is what the policy hands on.
   */
  lemma TwoTimeoutsThenResponse(response: RestResponse, later: Outcome<RestResponse>)
    ensures var outcomes := [Threw(TimeoutException("")), Threw(TimeoutException("")), Returned(response), later];
      Execute(ClassificationPolicy, outcomes) == Execution(Returned(response), 3, [2, 4])
  {
    var outcomes := [Threw(TimeoutException("")), Threw(TimeoutException("")), Returned(response), later];
    assert Pow2(1) == 2 && Pow2(2) == 4;
    var e2 := ExecuteFrom(ClassificationPolicy, outcomes, 2);
    assert e2 == Execution(Returned(response), 3, []);
    var e1 := ExecuteFrom(ClassificationPolicy, outcomes, 1);
    assert e1 == Execution(Returned(response), 3, [4]);
  }

  /**
   * `JsonConvert.DeserializeObject<ClassificationResponse>`: the response read from
   * the content, or the message of the `JsonException` it throws.
   */
  type JsonReader = string -> Result<ClassificationResponse, string>

  /**
   * `ValidateClassificationResponse`: `None` when the response may be read; otherwise
   * the exception it throws. The success check comes before the content check.
   */
  function ValidateClassificationResponse(response: RestResponse): (r: Option<Exception>)
    ensures r.None? <==> IsSuccessful(response) && response.content.Some?
    ensures r.Some? ==> r.value.HttpRequestException? && r.value.inner.None?
    ensures r.Some? ==> r.value.statusCode == Some(response.statusCode)
  {
    if !IsSuccessful(response) then
      Some(HttpRequestException(
        "Classification request failed with status code " + response.statusCode.name + ": "
          + (if response.errorMessage.Some? then response.errorMessage.value else ""),
        None, Some(response.statusCode)))
    else if response.content.None? then
      Some(HttpRequestException("Classification response content is null", None, Some(response.statusCode)))
    else
      None
  }

  /** An unsuccessful response is reported as such, whatever its content. */
  lemma UnsuccessfulReportedFirst(response: RestResponse)
    requires !IsSuccessful(response)
    ensures var r := ValidateClassificationResponse(response);
      && r.Some?
      && r.value.message == "Classification request failed with status code " + response.statusCode.name
         + ": " + (if response.errorMessage.Some? then response.errorMessage.value else "")
  {
  }

  /** A successful response without content is reported as null content. */
  lemma NullContentReported(response: RestResponse)
    requires IsSuccessful(response) && response.content.None?
    ensures ValidateClassificationResponse(response)
      == Some(HttpRequestException("Classification response content is null", None, Some(response.statusCode)))
  {
  }

  /** The response the policy hands on, once checked and read. */
  function ReadResponse(response: RestResponse, deserialize: JsonReader): (r: Result<ClassificationResponse, Exception>)
    ensures r.Success? <==>
      IsSuccessful(response) && response.content.Some? && deserialize(response.content.value).Success?
    ensures r.Success? ==> r.value == deserialize(response.content.value).value
    ensures r.Failure? ==> r.error.HttpRequestException? && r.error.statusCode == Some(response.statusCode)
  {
    match ValidateClassificationResponse(response)
    case Some(e) => Failure(e)
    case None =>
      var content := response.content.value;
      match deserialize(content)
      case Success(c) => Success(c)
      case Failure(m) => Failure(HttpRequestException(
        "Failed to deserialize classification response: " + content,
        Some(JsonException(m)), Some(response.statusCode)))
  }

  /** A check that fails is what the caller sees. */
  lemma CheckFailurePropagates(response: RestResponse, deserialize: JsonReader)
    requires ValidateClassificationResponse(response).Some?
    ensures ReadResponse(response, deserialize) == Failure(ValidateClassificationResponse(response).value)
  {
  }

  /**
   * Content the reader refuses raises an error that quotes the content, wraps the
   * reader's exception and carries the status code.
   */
  lemma ReaderFailureWrapped(response: RestResponse, deserialize: JsonReader)
    requires IsSuccessful(response) && response.content.Some?
    requires deserialize(response.content.value).Failure?
    ensures ReadResponse(response, deserialize) == Failure(HttpRequestException(
      "Failed to deserialize classification response: " + response.content.value,
      Some(JsonException(deserialize(response.content.value).error)), Some(response.statusCode)))
  {
  }

  /**
   * `ClassifyAsync`: the policy's outcome, then the check and the reader on a returned
   * response; a thrown exception the policy hands on propagates as it is.
   */
  function Classify(outcomes: seq<Outcome<RestResponse>>, deserialize: JsonReader): (r: Result<ClassificationResponse, Exception>)
    requires |outcomes| >= 4
  {
    match Execute(ClassificationPolicy, outcomes).outcome
    case Threw(e) => Failure(e)
    case Returned(response) => ReadResponse(response, deserialize)
  }

  /** The reader is consulted only on a successful response with content. */
  lemma ReaderOnlyAfterValidation(response: RestResponse, d1: JsonReader, d2: JsonReader)
    requires !IsSuccessful(response) || response.content.None?
    ensures ReadResponse(response, d1) == ReadResponse(response, d2)
  {
  }

  /** A first attempt that returns a response, even an unsuccessful one, decides the result. */
  lemma ReturnedResponseDecides(outcomes: seq<Outcome<RestResponse>>, deserialize: JsonReader)
    requires |outcomes| >= 4 && outcomes[0].Returned?
    ensures Classify(outcomes, deserialize) == ReadResponse(outcomes[0].value, deserialize)
  {
    ReturnedNeverRetried(ClassificationPolicy, outcomes);
  }

  /**
   * A classification succeeds only on a successful response, returned by the last
   * attempt, after attempts that all threw transient exceptions.
   */
  lemma SuccessComesFromResponse(outcomes: seq<Outcome<RestResponse>>, deserialize: JsonReader)
    requires |outcomes| >= 4 && Classify(outcomes, deserialize).Success?
    ensures var n := Execute(ClassificationPolicy, outcomes).attempts;
      && 1 <= n <= 4
      && outcomes[n - 1].Returned? && IsSuccessful(outcomes[n - 1].value)
      && outcomes[n - 1].value.content.Some?
      && deserialize(outcomes[n - 1].value.content.value) == Success(Classify(outcomes, deserialize).value)
      && forall i :: 0 <= i < n - 1 ==> outcomes[i].Threw? && IsTransient(outcomes[i].exception)
  {
    ExecuteCharacterized(ClassificationPolicy, outcomes);
  }

  /** Four transient failures in a row: the fourth exception propagates unchanged. */
  lemma ExhaustedRetriesPropagate(outcomes: seq<Outcome<RestResponse>>, deserialize: JsonReader)
    requires |outcomes| >= 4
    requires forall i :: 0 <= i < 4 ==> outcomes[i].Threw? && IsTransient(outcomes[i].exception)
    ensures Classify(outcomes, deserialize) == Failure(outcomes[3].exception)
  {
    ExhaustedPropagatesLast(ClassificationPolicy, outcomes);
  }

  /** What one call sent and saw: the request, and the policy's attempts and waits. */
  datatype Call = Call(request: RestRequest, attempts: nat, waits: seq<nat>)

  /** The client: a REST client for the configured base URL and the retry policy, both fixed at construction. */
  class ClassificationHttpClient {
    const baseUrl: string
    const retryPolicy: RetryPolicy := ClassificationPolicy

    constructor (baseUrl: string)
      ensures this.baseUrl == baseUrl
    {
      this.baseUrl := baseUrl;
    }

    /**
     * Classifies `request`, the transport behaving as `outcomes` on successive attempts.
     * Every attempt sends `POST classify` with the request as its body.
     */
    method ClassifyAsync(request: EvaluationRequest, outcomes: seq<Outcome<RestResponse>>, deserialize: JsonReader)
      returns (result: Result<ClassificationResponse, Exception>, call: Call)
      requires |outcomes| >= 4
      ensures result == Classify(outcomes, deserialize)
      ensures call.request == RestRequest("classify", Post, request)
      ensures call.attempts == Execute(ClassificationPolicy, outcomes).attempts
      ensures call.waits == Execute(ClassificationPolicy, outcomes).waits
      ensures 1 <= call.attempts <= 4 && call.waits == [2, 4, 8][..call.attempts - 1]
    {
      var restRequest := RestRequest("classify", Post, request);
      var outcome, attempts, waits := ExecuteAsync(retryPolicy, outcomes);
      ClassificationWaits(outcomes);
      call := Call(restRequest, attempts, waits);
      match outcome
      case Threw(e) =>
        result := Failure(e);
      case Returned(response) =>
        result := ReadResponse(response, deserialize);
    }
  }
}
