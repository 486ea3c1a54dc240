/** The RestSharp request and response shapes the classification client uses. */
module Http {
  import opened Wrappers
  import opened Models

  datatype Method = Get | Post | Put | Delete

  /** `RestRequest`: a resource relative to the client's base URL, a verb and a JSON body. */
  datatype RestRequest = RestRequest(resource: string, verb: Method, body: EvaluationRequest)

  /** RestSharp's `ResponseStatus`: whether the transport completed. */
  datatype ResponseStatus = NotSet | Completed | Error | TimedOut | Aborted

  /** `RestResponse`: the parts the client reads. */
  datatype RestResponse = RestResponse(
    statusCode: HttpStatusCode,
    responseStatus: ResponseStatus,
    content: Option<string>,
    errorMessage: Option<string>)

  /** A 2xx status (section 15.3 of RFC 9110). */
  predicate IsSuccessStatusCode(status: HttpStatusCode) {
    200 <= status.code <= 299
  }

  /** `RestResponse.IsSuccessful`: a 2xx status on a completed transport. */
  predicate IsSuccessful(response: RestResponse) {
    IsSuccessStatusCode(response.statusCode) && response.responseStatus == Completed
  }
}
