/**
 * `EvaluationService`: classify the request once, then build the evaluation response
 * and its summary file.
 */
module EvaluationService {
  import opened Wrappers
  import opened Models
  import opened Strings
  import Utf8
  import Base64

  /** `IClassificationHttpClient.ClassifyAsync`: a classification, or the exception it throws. */
  type Classifier = EvaluationRequest -> Result<ClassificationResponse, Exception>

  /** What an interpolated nullable string prints: its text, or nothing for null. */
  function OrEmpty(s: Option<string>): (t: string)
    ensures s.Some? ==> t == s.value
    ensures s.None? ==> t == ""
  {
    if s.Some? then s.value else ""
  }

  /** The five lines of the summary, in the order they are appended. */
  function SummaryLines(c: ClassificationResponse, invoice: InvoiceDetails): (lines: seq<string>)
    ensures |lines| == 5
    ensures lines[0] == "Evaluation ID: EVAL001"
    ensures lines[1] == "Invoice ID: " + OrEmpty(invoice.invoiceId)
    ensures lines[2] == "Classification: " + ClassificationName(c.classification)
    ensures lines[3] == "Risk Level: " + RiskLevelName(c.riskLevel)
    ensures lines[4] == "Rules Applied: Approved"
  {
    ["Evaluation ID: EVAL001",
     "Invoice ID: " + OrEmpty(invoice.invoiceId),
     "Classification: " + ClassificationName(c.classification),
     "Risk Level: " + RiskLevelName(c.riskLevel),
     "Rules Applied: Approved"]
  }

  /** The text `AppendLine` builds from `lines`: each line followed by the terminator. */
  function Terminated(lines: seq<string>, newLine: string): string {
    if lines == [] then ""
    else Terminated(lines[..|lines| - 1], newLine) + lines[|lines| - 1] + newLine
  }

  /** Appending the next line extends the text built so far. */
  lemma TerminatedNext(lines: seq<string>, newLine: string, k: nat)
    requires k < |lines|
    ensures Terminated(lines[..k + 1], newLine) == Terminated(lines[..k], newLine) + lines[k] + newLine
  {
    assert lines[..k + 1][..k] == lines[..k];
  }

  /** Where line `k` starts: after the first `k` lines and their terminators. */
  function Offset(lines: seq<string>, newLine: string, k: nat): nat
    requires k <= |lines|
  {
    |Terminated(lines[..k], newLine)|
  }

  /**
   * Line `k`, followed by the terminator, stands at its offset, and the next line
   * starts right after it: the text is the lines in order and nothing else.
   */
  lemma {:induction false} TerminatedLayout(lines: seq<string>, newLine: string, k: nat)
    requires k < |lines|
    ensures OccursAt(lines[k] + newLine, Terminated(lines, newLine), Offset(lines, newLine, k))
    ensures Offset(lines, newLine, k + 1) == Offset(lines, newLine, k) + |lines[k]| + |newLine|
    decreases |lines|
  {
    var n := |lines|;
    var init := lines[..n - 1];
    assert lines[..n] == lines;
    if k == n - 1 {
      assert lines[..k] == init;
      var t := Terminated(lines, newLine);
      var o := |Terminated(init, newLine)|;
      assert t == Terminated(init, newLine) + lines[k] + newLine;
      assert t[o..o + |lines[k] + newLine|] == lines[k] + newLine;
    } else {
      TerminatedLayout(init, newLine, k);
      assert init[..k] == lines[..k] && init[..k + 1] == lines[..k + 1];
      var t := Terminated(lines, newLine);
      var ti := Terminated(init, newLine);
      var o := Offset(lines, newLine, k);
      assert t == ti + lines[n - 1] + newLine;
      assert t[o..o + |lines[k] + newLine|] == ti[o..o + |lines[k] + newLine|];
    }
  }

  /** The summary text; the evaluation id in it is fixed, not the generated one. */
  function Summary(c: ClassificationResponse, invoice: InvoiceDetails, newLine: string): string {
    Terminated(SummaryLines(c, invoice), newLine)
  }

  /** Stored as UTF-8, read back as bytes, then `Convert.ToBase64String`. */
  function EvaluationFile(text: string): string {
    Base64.Encode(Utf8.Encode(text))
  }

  /** What a client does with the file: Base64-decode, then read the bytes as UTF-8. */
  function DecodeEvaluationFile(file: string): Option<string> {
    match Base64.Decode(file)
    case None => None
    case Some(bytes) => Utf8.Decode(bytes)
  }

  /** The file gives back the text it was made from, and is empty only for an empty text. */
  lemma EvaluationFileRoundTrip(text: string)
    ensures DecodeEvaluationFile(EvaluationFile(text)) == Some(text)
    ensures EvaluationFile(text) == "" <==> text == ""
  {
    Utf8.DecodeEncode(text);
    Base64.DecodeEncode(Utf8.Encode(text));
  }

  /** The summary is five lines, each at its place and terminated, in the order appended. */
  lemma SummaryLayout(c: ClassificationResponse, invoice: InvoiceDetails, newLine: string, k: nat)
    requires k < 5
    ensures var lines := SummaryLines(c, invoice);
      && OccursAt(lines[k] + newLine, Summary(c, invoice, newLine), Offset(lines, newLine, k))
      && Offset(lines, newLine, k + 1) == Offset(lines, newLine, k) + |lines[k]| + |newLine|
      && Offset(lines, newLine, 5) == |Summary(c, invoice, newLine)|
  {
    var lines := SummaryLines(c, invoice);
    TerminatedLayout(lines, newLine, k);
    assert lines[..5] == lines;
  }

  /**
   * What a reader of the file finds: the decoded text opens with the fixed evaluation
   * id, then holds the invoice id, the classification's name and the risk level's
   * name, each on its own terminated line, and ends with the rules applied.
   */
  lemma EvaluationFileLines(c: ClassificationResponse, invoice: InvoiceDetails, newLine: string)
    ensures var text := Summary(c, invoice, newLine);
      var lines := SummaryLines(c, invoice);
      && DecodeEvaluationFile(EvaluationFile(text)) == Some(text)
      && OccursAt("Evaluation ID: EVAL001" + newLine, text, 0)
      && OccursAt("Invoice ID: " + OrEmpty(invoice.invoiceId) + newLine, text, Offset(lines, newLine, 1))
      && OccursAt("Classification: " + ClassificationName(c.classification) + newLine, text, Offset(lines, newLine, 2))
      && OccursAt("Risk Level: " + RiskLevelName(c.riskLevel) + newLine, text, Offset(lines, newLine, 3))
      && OccursAt("Rules Applied: Approved" + newLine, text, Offset(lines, newLine, 4))
      && Offset(lines, newLine, 4) + |"Rules Applied: Approved" + newLine| == |text|
  {
    var lines := SummaryLines(c, invoice);
    EvaluationFileRoundTrip(Summary(c, invoice, newLine));
    SummaryLayout(c, invoice, newLine, 0);
    SummaryLayout(c, invoice, newLine, 1);
    SummaryLayout(c, invoice, newLine, 2);
    SummaryLayout(c, invoice, newLine, 3);
    SummaryLayout(c, invoice, newLine, 4);
    assert lines[..0] == [];
  }

  /** `GenerateEvaluationSummary`: five `AppendLine` calls, then the summary file. */
  method GenerateEvaluationSummary(c: ClassificationResponse, request: EvaluationRequest, newLine: string)
    returns (file: string)
    requires request.invoice.Some?
    ensures file == EvaluationFile(Summary(c, request.invoice.value, newLine))
    ensures DecodeEvaluationFile(file) == Some(Summary(c, request.invoice.value, newLine))
    ensures file != ""
  {
    var lines := SummaryLines(c, request.invoice.value);
    var summary := new StringBuilder(newLine);
    summary.AppendLine("Evaluation ID: EVAL001");
    TerminatedNext(lines, newLine, 0);
    assert summary.content == Terminated(lines[..1], newLine);
    summary.AppendLine("Invoice ID: " + OrEmpty(request.invoice.value.invoiceId));
    TerminatedNext(lines, newLine, 1);
    assert summary.content == Terminated(lines[..2], newLine);
    summary.AppendLine("Classification: " + ClassificationName(c.classification));
    TerminatedNext(lines, newLine, 2);
    assert summary.content == Terminated(lines[..3], newLine);
    summary.AppendLine("Risk Level: " + RiskLevelName(c.riskLevel));
    TerminatedNext(lines, newLine, 3);
    assert summary.content == Terminated(lines[..4], newLine);
    summary.AppendLine("Rules Applied: Approved");
    TerminatedNext(lines, newLine, 4);
    assert summary.content == Terminated(lines[..5], newLine);
    assert lines[..5] == lines;
    var text := summary.ToString();
    // the temporary file holds exactly the UTF-8 bytes written to it
    var fileBytes := Utf8.Encode(text);
    file := Base64.Encode(fileBytes);
    EvaluationFileRoundTrip(text);
  }

  /** What an evaluation did: its result, and the requests handed to the classifier. */
  datatype Evaluated = Evaluated(result: Result<EvaluationResponse, Exception>, classifierCalls: seq<EvaluationRequest>)

  /**
   * `EvaluateAsync` with `guid` the text of the new GUID. The classifier is called
   * first; then a null invoice throws, as `request.Invoice!.InvoiceId` does.
   */
  function Evaluate(classify: Classifier, request: EvaluationRequest, guid: string, newLine: string): (e: Evaluated)
    ensures e.classifierCalls == [request]
    ensures classify(request).Failure? ==> e.result == Failure(classify(request).error)
    ensures classify(request).Success? && request.invoice.None? ==> e.result == Failure(NullReferenceException)
  {
    match classify(request)
    case Failure(error) => Evaluated(Failure(error), [request])
    case Success(c) =>
      if request.invoice.None? then Evaluated(Failure(NullReferenceException), [request])
      else
        var invoice := request.invoice.value;
        Evaluated(Success(EvaluationResponse(
          "EVAL_" + guid,
          invoice.invoiceId,
          ["Approved"],
          c.classification,
          EvaluationFile(Summary(c, invoice, newLine)))), [request])
  }

  /**
   * A built response: the id is "EVAL_" and the GUID, the invoice id and the
   * classification are copied, the rules applied are exactly "Approved", and the file
   * decodes to the summary.
   */
  lemma EvaluateResponse(classify: Classifier, request: EvaluationRequest, guid: string, newLine: string)
    requires Evaluate(classify, request, guid, newLine).result.Success?
    ensures classify(request).Success? && request.invoice.Some?
    ensures var r := Evaluate(classify, request, guid, newLine).result.value;
      && r.evaluationId[..5] == "EVAL_" && r.evaluationId[5..] == guid
      && r.invoiceId == request.invoice.value.invoiceId
      && r.rulesApplied == ["Approved"]
      && r.classification == classify(request).value.classification
      && r.evaluationFile != ""
      && DecodeEvaluationFile(r.evaluationFile) == Some(Summary(classify(request).value, request.invoice.value, newLine))
  {
    var c := classify(request).value;
    EvaluationFileRoundTrip(Summary(c, request.invoice.value, newLine));
  }

  /**
   * The evaluation consults the classifier on the request alone: two classifiers that
   * answer the same for it give the same evaluation.
   */
  lemma ClassifiesRequestOnly(c1: Classifier, c2: Classifier, request: EvaluationRequest, guid: string, newLine: string)
    requires c1(request) == c2(request)
    ensures Evaluate(c1, request, guid, newLine) == Evaluate(c2, request, guid, newLine)
  {
  }

  /** The service, holding the classification client it was given. */
  class EvaluationService {
    const classificationHttpClient: Classifier

    constructor (classificationHttpClient: Classifier)
      ensures this.classificationHttpClient == classificationHttpClient
    {
      this.classificationHttpClient := classificationHttpClient;
    }

    method EvaluateAsync(request: EvaluationRequest, guid: string, newLine: string)
      returns (result: Result<EvaluationResponse, Exception>, classifierCalls: seq<EvaluationRequest>)
      ensures Evaluated(result, classifierCalls) == Evaluate(classificationHttpClient, request, guid, newLine)
    {
      var classificationResponse := classificationHttpClient(request);
      classifierCalls := [request];
      if classificationResponse.Failure? {
        result := Failure(classificationResponse.error);
        return;
      }
      var c := classificationResponse.value;
      if request.invoice.None? {
        result := Failure(NullReferenceException);
        return;
      }
      var file := GenerateEvaluationSummary(c, request, newLine);
      result := Success(EvaluationResponse(
        "EVAL_" + guid, request.invoice.value.invoiceId, ["Approved"], c.classification, file));
    }
  }
}
