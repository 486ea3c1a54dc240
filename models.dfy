/**
 * The records, enums and exceptions the service passes around.
 * C# nullable members (`string?`, `DateTime?`, `decimal?`, `IFormFile?`) are `Option`s.
 */
module Models {
  import opened Wrappers

  /** The kinds of repair work the classification service reports. */
  datatype Classification =
    | WaterLeakDetection
    | RoofingTileReplacement
    | FireDamagedWallRepair
    | BrokenDoorRepair
    | BasementWaterproofing

  /** The risk the classification service attaches to an invoice. */
  datatype RiskLevel = Low | Medium | High

  /** `Classification.ToString()`: the member's name. */
  function ClassificationName(c: Classification): string {
    match c
    case WaterLeakDetection => "WaterLeakDetection"
    case RoofingTileReplacement => "RoofingTileReplacement"
    case FireDamagedWallRepair => "FireDamagedWallRepair"
    case BrokenDoorRepair => "BrokenDoorRepair"
    case BasementWaterproofing => "BasementWaterproofing"
  }

  /** `RiskLevel.ToString()`: the member's name. */
  function RiskLevelName(r: RiskLevel): string {
    match r
    case Low => "Low"
    case Medium => "Medium"
    case High => "High"
  }

  /** Distinct members print distinctly, so a summary line identifies the classification. */
  lemma ClassificationNameInjective(a: Classification, b: Classification)
    ensures ClassificationName(a) == ClassificationName(b) ==> a == b
  {
  }

  /** `System.DateTime`, as its tick count; only its presence matters here. */
  datatype DateTime = DateTime(ticks: nat)

  /** `InvoiceDetails`: every member is nullable and bound from the form. */
  datatype InvoiceDetails = InvoiceDetails(
    invoiceId: Option<string>,
    invoiceNumber: Option<string>,
    invoiceDate: Option<DateTime>,
    comment: Option<string>,
    amount: Option<real>)

  /** The parts of an uploaded `IFormFile` that the rules look at. */
  datatype FormFile = FormFile(contentType: string, length: int)

  /** `EvaluationRequest`: an optional document and optional invoice details. */
  datatype EvaluationRequest = EvaluationRequest(
    document: Option<FormFile>,
    invoice: Option<InvoiceDetails>)

  /** What the classification service answers. */
  datatype ClassificationResponse = ClassificationResponse(
    classification: Classification,
    riskLevel: RiskLevel)

  /**
   * `EvaluationResponse`. The invoice id is copied from the request through the
   * null-forgiving operator, which does not check, so it stays an `Option`.
   */
  datatype EvaluationResponse = EvaluationResponse(
    evaluationId: string,
    invoiceId: Option<string>,
    rulesApplied: seq<string>,
    classification: Classification,
    evaluationFile: string)

  /**
   * `System.Net.HttpStatusCode`: the numeric code and the text its `ToString()`
   * gives (the member name, or the digits for a value with no member).
   */
  datatype HttpStatusCode = HttpStatusCode(code: int, name: string)

  /** The exceptions that flow through the service. */
  datatype Exception =
    | HttpRequestException(message: string, inner: Option<Exception>, statusCode: Option<HttpStatusCode>)
    | TimeoutException(message: string)
    | JsonException(message: string)
    | NullReferenceException
    | OtherException(typeName: string, message: string)
}
