# Property-expert invoice evaluation, modelled in Dafny

This project models the core of the property-expert WebApi, whose single endpoint is
`POST /Evaluation/evaluate`. The endpoint accepts a form carrying a PDF document and
invoice details. It validates both with FluentValidation, and an invalid form gets
`400 Bad Request` with every error message. A valid form goes to the evaluation
service. The service sends the request to a third-party classification API under a
Polly retry policy. It then builds the evaluation response and a five-line text
summary, stored as the Base64 of its UTF-8 bytes.

The project has one module per concern:

| module | models |
|---|---|
| `Models`, `Http` | the records and enums of the API (invoice details, request, classification and evaluation responses, exceptions), and the RestSharp request/response |
| `Strings` | `char.IsWhiteSpace`, `string.IsNullOrEmpty`/`IsNullOrWhiteSpace`, ordinal ignore-case equality, `StringBuilder` (a class) |
| `IntParsing` | `int.TryParse` with `NumberStyles.Integer` |
| `Validation` | how a FluentValidation validator reports: every rule runs, failures in declaration order |
| `InvoiceValidator`, `EvaluationRequestValidator` | the two validators' rules, `When` guards and nesting |
| `Retry` | Polly's `WaitAndRetryAsync` as a recursive function, plus the attempt loop as a method proved equal to it |
| `ClassificationHttpClient` | the policy's configuration, `ValidateClassificationResponse`, `ClassifyAsync` and the client class |
| `Utf8`, `Base64` | RFC 3629 encoding and the padded Base64 of section 4 of RFC 4648, each with a strict decoder and a round trip |
| `EvaluationService` | `EvaluateAsync`, and `GenerateEvaluationSummary` as a method over `StringBuilder` |
| `EvaluationController` | the validate-then-dispatch action |

**Inputs.** The model takes its outside inputs as parameters:
- the transport: the outcome of each attempt, a returned response or a thrown exception;
- the JSON reader;
- the classifier and the evaluation service, each a function;
- the GUID text and `Environment.NewLine`.

The evaluation and the endpoint also return the requests they handed to their
dependency. That list is written by the model itself, so it records the code's call
structure rather than proving it. What is proved is the dependence:
- the evaluation's result depends on the classifier only through its answer for the request;
- an invalid request's answer does not depend on the service at all;
- a valid request's answer depends on the service only through its answer for that request.

**Where the model follows the code.**
- The invoice-number rule is the code's own test:
  - the number starts with `S`;
  - its length is 6;
  - `int.TryParse` accepts the five-character tail.

  This is looser than its message, "followed by 5 digits". `S-1234`, `S+1234`, `S 1234` and `S1234 ` all pass, and the model proves each.
- A white-space-only number fails both the required rule and the format rule. The format rule's guard tests only for null or empty.
- `EvaluateAsync` calls the classifier before it dereferences `request.Invoice`. A null invoice therefore throws after the call has been made.
- The summary's first line is the fixed `Evaluation ID: EVAL001`, not the id put in the response.

## Model

| member | source | states |
|---|---|---|
| Models.ClassificationNameInjective | WebApi/Models/Enums/Classification.cs:6-32 | distinct classifications print distinct names in the summary |
| Strings.EqualsOrdinalIgnoreCaseIff | WebApi/Models/Validators/EvaluationRequestValidator.cs:28 | the ordinal ignore-case comparison holds exactly when the upper-cased texts are equal |
| Strings.StringBuilder.constructor | WebApi/Services/EvaluationService.cs:41 | a new builder is empty and keeps the line terminator |
| Strings.StringBuilder.AppendLine | WebApi/Services/EvaluationService.cs:42-46 | the content grows by the line followed by the terminator, and nothing else changes |
| IntParsing.TryParseInt32 | WebApi/Models/Validators/InvoiceValidator.cs:32 | a parsed value lies in the 32-bit signed range |
| IntParsing.TryParseInt32Sound | WebApi/Models/Validators/InvoiceValidator.cs:32 | whatever is accepted is white space, an optional sign, digits and white space, and the result is the value of those digits |
| IntParsing.TryParseInt32Complete | WebApi/Models/Validators/InvoiceValidator.cs:32 | every text of that layout is accepted, with its value, exactly when the value fits in 32 bits |
| IntParsing.ShortTextParses | WebApi/Models/Validators/InvoiceValidator.cs:32 | a text of at most nine characters is accepted exactly when it has the integer layout |
| IntParsing.WhiteBetweenDigitsRejected | WebApi/Models/Validators/InvoiceValidator.cs:32 | white space between two digits means no integer layout, and the text is refused |
| Validation.Failures | WebApi/Models/Validators/InvoiceValidator.cs:25-43 | the report is in rule order, holds only the validator's rules, and holds a rule exactly when it failed |
| Validation.InRuleOrderAppend | WebApi/Models/Validators/EvaluationRequestValidator.cs:24-39 | the failures of earlier rules, followed by those of later rules, stay in declaration order |
| Validation.InRuleOrderUnique | WebApi/Models/Validators/InvoiceValidator.cs:25-43 | two reports in declaration order with the same failures are equal, so a report is fixed by which rules failed |
| Validation.FirstTwo | WebApi/Models/Validators/EvaluationRequestValidator.cs:27-35 | two reported rules adjacent in rank, with nothing reported below them, open the report in that order |
| InvoiceValidator.Validate | WebApi/Models/Validators/InvoiceValidator.cs:25-43 | every rule runs, a rule is reported exactly when it fails, and the report follows declaration order |
| InvoiceValidator.ValidIff | WebApi/Models/Validators/InvoiceValidator.cs:25-43 | an invoice passes exactly when its id, number, date, comment and amount are present and the number is well formed |
| InvoiceValidator.NothingFailsIff | WebApi/Models/Validators/InvoiceValidator.cs:25-43 | an invoice passes exactly when none of the six rules fails |
| InvoiceValidator.RequiredFields | WebApi/Models/Validators/InvoiceValidator.cs:25-43 | the id, number and comment rules report exactly on a null, empty or white-space value; the date and amount rules report exactly on null |
| InvoiceValidator.FormatIff | WebApi/Models/Validators/InvoiceValidator.cs:32 | the format holds exactly for a six-character text starting with `S` whose tail has the integer layout |
| InvoiceValidator.MissingNumberSkipsFormat | WebApi/Models/Validators/InvoiceValidator.cs:28-34 | a null or empty number is reported as missing, and the format rule is skipped |
| InvoiceValidator.WhiteSpaceNumberFailsBoth | WebApi/Models/Validators/InvoiceValidator.cs:28-34 | a white-space-only number fails both the required and the format rule |
| InvoiceValidator.DocumentedNumberAccepted | WebApi/Models/Validators/InvoiceValidator.cs:32 | `S12345` passes |
| InvoiceValidator.SignedNumbersAccepted | WebApi/Models/Validators/InvoiceValidator.cs:32 | `S`, a sign of either kind, then four digits passes, as `S-1234` and `S+1234` do |
| InvoiceValidator.PaddedNumberAccepted | WebApi/Models/Validators/InvoiceValidator.cs:32 | `S 1234` passes |
| InvoiceValidator.TrailingSpaceNumberAccepted | WebApi/Models/Validators/InvoiceValidator.cs:32 | `S1234 ` passes |
| InvoiceValidator.WrongLengthRejected | WebApi/Models/Validators/InvoiceValidator.cs:32 | any length other than six fails, such as `S1234` and `S123456` |
| InvoiceValidator.WrongLetterRejected | WebApi/Models/Validators/InvoiceValidator.cs:32 | `A12345` fails |
| InvoiceValidator.InnerSpaceRejected | WebApi/Models/Validators/InvoiceValidator.cs:32 | `S12 45` fails |
| EvaluationRequestValidator.InvoiceFailures | WebApi/Models/Validators/EvaluationRequestValidator.cs:37-39 | a null invoice adds nothing from the child validator; a present one adds exactly the invoice validator's report |
| EvaluationRequestValidator.Validate | WebApi/Models/Validators/EvaluationRequestValidator.cs:24-39 | the report is in declaration order and holds exactly the request's failing rules and the invoice's failures |
| EvaluationRequestValidator.InvoiceFailuresLast | WebApi/Models/Validators/EvaluationRequestValidator.cs:37-39 | with an invoice present, the report ends with exactly the invoice validator's report, and all before it are the request's own failing rules |
| EvaluationRequestValidator.NothingFailsIff | WebApi/Models/Validators/EvaluationRequestValidator.cs:24-39 | a request passes exactly when none of its own rules fails and the invoice reports nothing |
| EvaluationRequestValidator.OwnRulesPassIff | WebApi/Models/Validators/EvaluationRequestValidator.cs:24-38 | the request's own rules pass exactly when there is a PDF of at most 5 MB and invoice details |
| EvaluationRequestValidator.ValidIff | WebApi/Models/Validators/EvaluationRequestValidator.cs:24-39 | a request passes exactly when it has a PDF of at most 5 MB and invoice details that pass the invoice rules |
| EvaluationRequestValidator.ValidHasInvoiceId | WebApi/Models/Validators/EvaluationRequestValidator.cs:37-39 | a passing request has invoice details with a non-blank id |
| EvaluationRequestValidator.MissingInvoiceSkipsInvoiceRules | WebApi/Models/Validators/EvaluationRequestValidator.cs:37-39 | a null invoice is reported as required, and nothing from the invoice rules appears |
| EvaluationRequestValidator.MissingDocumentSkipsDocumentRules | WebApi/Models/Validators/EvaluationRequestValidator.cs:24-35 | a null document is reported as required, and the type and size rules are skipped |
| EvaluationRequestValidator.SizeLimit | WebApi/Models/Validators/EvaluationRequestValidator.cs:32-35 | the size rule reports exactly on a length above 5 242 880 bytes |
| EvaluationRequestValidator.PdfContentTypes | WebApi/Models/Validators/EvaluationRequestValidator.cs:27-30 | `APPLICATION/PDF` and `Application/Pdf` are PDFs; `application/pdf; charset=utf-8` and `application/octet-stream` are not |
| EvaluationRequestValidator.DocumentPresentRanks | WebApi/Models/Validators/EvaluationRequestValidator.cs:24-25 | with a document present, nothing reported ranks before the type rule |
| EvaluationRequestValidator.LargeNonPdfFailsBoth | WebApi/Models/Validators/EvaluationRequestValidator.cs:27-35 | a large non-PDF fails both document rules |
| EvaluationRequestValidator.LargeNonPdfReportsBoth | WebApi/Models/Validators/EvaluationRequestValidator.cs:27-35 | a large non-PDF's report opens with the type message, then the size message |
| Retry.ExecuteFrom | WebApi/Services/ClassificationHttpClient.cs:30-34 | from attempt `k` on, the attempt count stays within the retry budget, with one wait per retry made |
| Retry.ExecuteFromCharacterized | WebApi/Services/ClassificationHttpClient.cs:30-34 | from attempt `k` on, the outcome is the last attempt's, earlier attempts were all retried, and the waits are the policy's durations |
| Retry.ExecuteCharacterized | WebApi/Services/ClassificationHttpClient.cs:30-34 | an execution is 1 to retryCount+1 attempts; every attempt but the last threw a handled exception; the last one returned, threw an unhandled exception or used up the budget; retry `k` waited `sleepDuration(k)` |
| Retry.CharacterizationUnique | WebApi/Services/ClassificationHttpClient.cs:30-34 | that characterization fits exactly one execution |
| Retry.ReturnedNeverRetried | WebApi/Services/ClassificationHttpClient.cs:30-34 | an attempt that returns a response, however unsuccessful, ends the execution with no wait |
| Retry.UnhandledPropagates | WebApi/Services/ClassificationHttpClient.cs:30-32 | an exception the policy does not handle propagates from the first attempt |
| Retry.ExhaustedPropagatesLast | WebApi/Services/ClassificationHttpClient.cs:30-34 | when every allowed attempt throws a handled exception, all are made and the last exception propagates |
| Retry.ExecuteFromRetry | WebApi/Services/ClassificationHttpClient.cs:33-34 | one retry moves the wait `sleepDuration(k+1)` into the waits already made and leaves the outcome unchanged |
| Retry.ExecuteAsync | WebApi/Services/ClassificationHttpClient.cs:49 | the attempt loop gives the execution of the recursive definition and so satisfies its characterization |
| ClassificationHttpClient.ClassificationWaits | WebApi/Services/ClassificationHttpClient.cs:33-34 | at most four attempts; the waits are 2, 4 and 8 seconds, one per retry, adding to at most 14 |
| ClassificationHttpClient.TwoTimeoutsThenResponse | WebApi/Services/ClassificationHttpClient.cs:30-34 | two timeouts and then a response give three attempts, with waits of 2 and 4 seconds, and hand that response on |
| ClassificationHttpClient.ValidateClassificationResponse | WebApi/Services/ClassificationHttpClient.cs:68-81 | passes exactly a successful response with content; otherwise it throws an `HttpRequestException` with no inner exception and the response's status code |
| ClassificationHttpClient.UnsuccessfulReportedFirst | WebApi/Services/ClassificationHttpClient.cs:70-75 | an unsuccessful response, whatever its content, reports its status name and error message |
| ClassificationHttpClient.NullContentReported | WebApi/Services/ClassificationHttpClient.cs:77-80 | a successful response without content is reported as null content, with its status code |
| ClassificationHttpClient.ReadResponse | WebApi/Services/ClassificationHttpClient.cs:50-60 | succeeds exactly when the check passes and the reader accepts the content, and then with the reader's value; every failure is an `HttpRequestException` with the status code |
| ClassificationHttpClient.CheckFailurePropagates | WebApi/Services/ClassificationHttpClient.cs:50 | a failed check is what the caller sees |
| ClassificationHttpClient.ReaderFailureWrapped | WebApi/Services/ClassificationHttpClient.cs:56-59 | content the reader refuses raises an error quoting the content, wrapping the reader's exception and carrying the status code |
| ClassificationHttpClient.ReaderOnlyAfterValidation | WebApi/Services/ClassificationHttpClient.cs:50-54 | when the check fails, the reader makes no difference to the result |
| ClassificationHttpClient.ReturnedResponseDecides | WebApi/Services/ClassificationHttpClient.cs:49-50 | a first attempt that returns decides the result through the check and the reader alone |
| ClassificationHttpClient.SuccessComesFromResponse | WebApi/Services/ClassificationHttpClient.cs:49-54 | a classification comes from a successful response with content, returned by the last attempt, after attempts that all threw transient exceptions |
| ClassificationHttpClient.ExhaustedRetriesPropagate | WebApi/Services/ClassificationHttpClient.cs:49 | four transient failures in a row propagate the fourth exception unchanged |
| ClassificationHttpClient.ClassificationHttpClient.constructor | WebApi/Services/ClassificationHttpClient.cs:26-35 | the client keeps the configured base URL; its retry policy is fixed, by its declaration, to the classification policy |
| ClassificationHttpClient.ClassificationHttpClient.ClassifyAsync | WebApi/Services/ClassificationHttpClient.cs:44-61 | every attempt sends `POST classify` with the request as body; between one and four attempts are made, and the attempts and waits recorded are exactly those of the policy's execution over the outcomes, so between one and four attempts with waits of 2, 4 and 8 seconds; the result is the policy's outcome, checked and read |
| Utf8.EncodeChar | WebApi/Services/EvaluationService.cs:49 | a character is one to four bytes, one byte exactly for ASCII, the rest continuation bytes |
| Utf8.DecodeFirstEncodeChar | WebApi/Services/EvaluationService.cs:49-51 | the strict decoder reads an encoded character back, using exactly its bytes |
| Utf8.DecodeEncode | WebApi/Services/EvaluationService.cs:49-51 | decoding the UTF-8 bytes of a text gives the text back |
| Utf8.EncodeAscii | WebApi/Services/EvaluationService.cs:49 | an ASCII text is encoded one byte per character, byte equal to code |
| Base64.Encode | WebApi/Services/EvaluationService.cs:52 | the encoding is four characters for every three bytes or fewer |
| Base64.EncodeAlphabet | WebApi/Services/EvaluationService.cs:52 | the encoding uses only the alphabet, plus `=` in the last two places |
| Base64.DecodeEncode | WebApi/Services/EvaluationService.cs:52 | the strict decoder gives back exactly the encoded bytes |
| EvaluationService.TerminatedLayout | WebApi/Services/EvaluationService.cs:41-46 | in the built text each line, followed by the terminator, stands at its offset, and the next line starts right after it |
| EvaluationService.SummaryLayout | WebApi/Services/EvaluationService.cs:41-46 | the summary is exactly the five lines in order, each terminated, and nothing else |
| EvaluationService.EvaluationFileRoundTrip | WebApi/Services/EvaluationService.cs:48-52 | decoding the file gives back the text, and the file is empty only for an empty text |
| EvaluationService.EvaluationFileLines | WebApi/Services/EvaluationService.cs:41-52 | the decoded file opens with `Evaluation ID: EVAL001`, holds the invoice id, the classification's name and the risk level's name, each on its own terminated line, and ends with `Rules Applied: Approved` |
| EvaluationService.GenerateEvaluationSummary | WebApi/Services/EvaluationService.cs:38-53 | after five `AppendLine` calls, the file is the Base64 of the summary's UTF-8 bytes; it is not empty and decodes to the summary |
| EvaluationService.Evaluate | WebApi/Services/EvaluationService.cs:19-30 | a classifier failure propagates unchanged; a null invoice throws `NullReferenceException` after the classification |
| EvaluationService.ClassifiesRequestOnly | WebApi/Services/EvaluationService.cs:19-21 | two classifiers that answer the same for the request give the same evaluation |
| EvaluationService.EvaluateResponse | WebApi/Services/EvaluationService.cs:22-29 | a built response has id "EVAL_" followed by the GUID, the request's invoice id, the classifier's classification, rules exactly `["Approved"]`, and a non-empty file decoding to the summary |
| EvaluationService.EvaluationService.constructor | WebApi/Services/EvaluationService.cs:12 | the service keeps the classification client it is given |
| EvaluationService.EvaluationService.EvaluateAsync | WebApi/Services/EvaluationService.cs:19-30 | the imperative form of `Evaluate`: the method's result is that of `Evaluate` over the held client |
| EvaluationController.Evaluate | WebApi/Controllers/EvaluationController.cs:23-34 | an invalid request answers BadRequest with one message per failure, in the validators' order; a valid one answers Ok with the service's response, or lets its exception through |
| EvaluationController.InvalidIgnoresService | WebApi/Controllers/EvaluationController.cs:23-29 | an invalid request gets the same answer whatever the service, so the service plays no part in it |
| EvaluationController.ValidUsesServiceOnRequest | WebApi/Controllers/EvaluationController.cs:31-34 | two services that answer the same for the request give the same answer |
| EvaluationController.BadRequestMessages | WebApi/Controllers/EvaluationController.cs:23-29 | a BadRequest comes only from a failed validation, with one message per failure in the validators' order, at least one |
| EvaluationController.OkEndToEnd | WebApi/Controllers/EvaluationController.cs:23-34 | an Ok answer means the request passed validation and the classifier succeeded; the response carries the request's non-null invoice id and the classifier's classification |

## Left out

- The RestSharp transport, `AddJsonBody` and Newtonsoft deserialization are foreign libraries. Each attempt's outcome is an input, and the JSON reader is a function parameter. What the reader makes of the content `"null"` (a null result that the code's `!` lets through) is not modelled.
- Network failures are not claimed to be retried. RestSharp usually reports them inside the response rather than throwing. Only thrown `HttpRequestException`s and `TimeoutException`s are retried.
- "Successful" is a 2xx status with a completed transport, as RestSharp defines it.
- A status code is its value together with the member name that `ToString()` prints. All such names are taken as data.
- Real delays, `async`/`await` and timing are left out. The waits are returned as seconds.
- The temporary file in `GenerateEvaluationSummary` is the identity on the UTF-8 bytes: its write-then-read is modelled as handing the bytes straight back. The file is never deleted, a leak outside the model.
- `Guid.NewGuid()` and `Environment.NewLine` are non-deterministic or platform-specific, so they are parameters.
- `Utf8.Decode` and `Base64.Decode` are strict, the reading side that a client of the file would use. They refuse anything the encoders cannot produce. .NET's lenient Base64 decoding rules (white space, line breaks) are not modelled.
- The contents of the `IFormFile` stream are left out. Only `ContentType` and `Length` matter to the rules, and a null `ContentType` is not modelled.
- Ordinal ignore-case comparison folds only ASCII letters. Non-ASCII case pairs never occur in `application/pdf`, but the model would treat them as distinct.
- `int.TryParse` uses the ASCII `+` and `-` only. Culture-specific sign symbols and the acceptance of trailing NUL characters are not modelled.
- `NotEmpty` on the nullable date and amount fails only on null in the model. Whether FluentValidation also rejects `DateTime.MinValue` or `0` there is not modelled.
- `Program.cs` and `ClassificationApiOptions` are not part of this model. They hold dependency injection, Swagger, HTTPS redirection, HTTP logging and configuration binding.
- Logging in the controller is not part of this model.
- The test projects are not part of this model. They informed the properties only.
- Retry.ExecuteAsync: requires an outcome for every attempt the policy may make (`retryCount < |outcomes|`). Outcomes the execution never reaches are ignored.
- ClassificationHttpClient.ClassifyAsync: requires four outcomes for the same reason.
- EvaluationService.GenerateEvaluationSummary: requires invoice details. Its only caller reaches it after dereferencing them, and a null invoice throws in `EvaluationService.Evaluate` before the summary is built.
- EvaluationService.EvaluateResponse: the response's invoice id is the request's, copied even when null (the code's `!` does not throw). A valid request's id is non-blank, as `EvaluationController.OkEndToEnd` shows.
- Utf8.DecodeEncode and EvaluationService.EvaluationFileRoundTrip: proved for Dafny strings, which hold Unicode scalar values. A .NET string is UTF-16 code units and may hold a lone surrogate, which `File.WriteAllText` writes as `EF BF BD` (U+FFFD); for such a string the round trip fails. Form binding decodes the request as UTF-8, replacing invalid sequences, and so does not produce lone surrogates; the model does not cover them.
- `x.Length == 6` in the invoice-number rule counts UTF-16 code units, while the model counts characters. The two differ only for characters outside the Basic Multilingual Plane. Any such character makes `int.TryParse` fail, so the rule's outcome is the same.
- `Classification` and `RiskLevel` are closed datatypes. The JSON reader's enum converter also accepts an integer token such as `"classification": 99`, giving an undefined enum value, which the summary would print as `99`. Such values are not modelled.
- EvaluationService.EvaluationService.EvaluateAsync and EvaluationService.Evaluate state the same behaviour twice, as a method and as the function it is proved equal to. Neither records calls in a log object: "the classifier is called once" and "the service is not called" are shown as dependence (EvaluationService.ClassifiesRequestOnly, EvaluationController.InvalidIgnoresService) rather than by a call counter.
