/**
 * `EvaluationRequestValidator`: the rules on the uploaded document, then the rule on
 * the invoice details, which hands a present invoice to `InvoiceValidator`.
 */
module EvaluationRequestValidator {
  import opened Wrappers
  import opened Models
  import opened Strings
  import opened Validation
  import InvoiceValidator

  /** 5 MB, the largest document accepted. */
  const MaxFileSize: int := 5 * 1024 * 1024

  const PdfContentType: string := "application/pdf"

  /** The request's own rules, in the order they are declared. */
  const Rules: seq<ValidationFailure> := [DocumentRequired, OnlyPdfAccepted, FileTooLarge, InvoiceRequired]

  /** The content type is "application/pdf", compared ordinally and ignoring case. */
  predicate IsPdf(document: FormFile) {
    EqualsOrdinalIgnoreCase(document.contentType, PdfContentType)
  }

  /**
   * Whether one of the request's own rules fails; the two document checks run only
   * `When` a document is present.
   */
  predicate Fails(request: EvaluationRequest, rule: ValidationFailure) {
    match rule
    case DocumentRequired => request.document.None?
    case OnlyPdfAccepted => request.document.Some? && !IsPdf(request.document.value)
    case FileTooLarge => request.document.Some? && request.document.value.length > MaxFileSize
    case InvoiceRequired => request.invoice.None?
    case _ => false
  }

  /** Which of the request's own rules fail, listed in the order of `Rules`. */
  function Checks(request: EvaluationRequest): (failing: seq<bool>)
    ensures |failing| == |Rules|
    ensures forall i :: 0 <= i < |Rules| ==> failing[i] == Fails(request, Rules[i])
  {
    seq(|Rules|, i requires 0 <= i < |Rules| => Fails(request, Rules[i]))
  }

  /** The failures the child validator reports: none for a null invoice, which it skips. */
  function InvoiceFailures(request: EvaluationRequest): (errors: seq<ValidationFailure>)
    ensures request.invoice.None? ==> errors == []
    ensures request.invoice.Some? ==> errors == InvoiceValidator.Validate(request.invoice.value)
    ensures forall f :: f in errors ==> f in InvoiceValidator.Rules && Rank(f) >= 4
  {
    if request.invoice.Some? then InvoiceValidator.Validate(request.invoice.value) else []
  }

  /**
   * Every rule runs. The failures are the request's failing rules and those of the
   * invoice details, in declaration order, the invoice's after all of the request's own.
   */
  function Validate(request: EvaluationRequest): (errors: seq<ValidationFailure>)
    ensures InRuleOrder(errors)
    ensures forall f :: f in errors <==> (f in Rules && Fails(request, f)) || f in InvoiceFailures(request)
  {
    var own := Failures(Checks(request), Rules);
    var nested := InvoiceFailures(request);
    assert forall f :: f in own ==> Rank(f) < 4;
    InRuleOrderAppend(own, nested);
    own + nested
  }

  /**
   * With invoice details present, the report ends with exactly what the invoice
   * validator reports, and everything before that is one of the request's own rules.
   */
  lemma InvoiceFailuresLast(request: EvaluationRequest)
    requires request.invoice.Some?
    ensures var errors, nested := Validate(request), InvoiceValidator.Validate(request.invoice.value);
      && |nested| <= |errors|
      && errors[|errors| - |nested|..] == nested
      && forall i :: 0 <= i < |errors| - |nested| ==> errors[i] in Rules && Fails(request, errors[i])
  {
    var own := Failures(Checks(request), Rules);
    var nested := InvoiceValidator.Validate(request.invoice.value);
    var errors := Validate(request);
    assert errors == own + nested;
    assert errors[|own|..] == nested;
    forall i | 0 <= i < |own| ensures errors[i] in Rules && Fails(request, errors[i]) {
      assert errors[i] == own[i] && own[i] in own;
      var j :| 0 <= j < |Rules| && Rules[j] == own[i];
      assert Checks(request)[j];
    }
  }

  /** `ValidationResult.IsValid`. */
  predicate IsValid(request: EvaluationRequest) {
    Validate(request) == []
  }

  /** A request passes when none of its own rules fails and the invoice rules report nothing. */
  lemma NothingFailsIff(request: EvaluationRequest)
    ensures IsValid(request) <==>
      (forall f :: f in Rules ==> !Fails(request, f)) && InvoiceFailures(request) == []
  {
    var errors := Validate(request);
    var nested := InvoiceFailures(request);
    assert nested != [] ==> nested[0] in errors;
    assert errors != [] ==> errors[0] in errors;
  }

  /**
   * A request passes exactly when it has a PDF document of at most 5 MB and invoice
   * details that pass the invoice rules.
   */
  lemma ValidIff(request: EvaluationRequest)
    ensures IsValid(request) <==>
      && request.document.Some?
      && IsPdf(request.document.value)
      && request.document.value.length <= MaxFileSize
      && request.invoice.Some?
      && InvoiceValidator.IsValid(request.invoice.value)
  {
    NothingFailsIff(request);
    OwnRulesPassIff(request);
  }

  /** The request's own rules all pass exactly when a small PDF and invoice details are present. */
  lemma OwnRulesPassIff(request: EvaluationRequest)
    ensures (forall f :: f in Rules ==> !Fails(request, f)) <==>
      && request.document.Some?
      && IsPdf(request.document.value)
      && request.document.value.length <= MaxFileSize
      && request.invoice.Some?
  {
    assert Rules == [DocumentRequired, OnlyPdfAccepted, FileTooLarge, InvoiceRequired];
    if forall f :: f in Rules ==> !Fails(request, f) {
      assert Rules[0] in Rules && Rules[1] in Rules && Rules[2] in Rules && Rules[3] in Rules;
      assert !Fails(request, DocumentRequired) && !Fails(request, InvoiceRequired);
      assert !Fails(request, OnlyPdfAccepted) && !Fails(request, FileTooLarge);
    }
  }

  /** A passing request carries an invoice whose id is present and not blank. */
  lemma ValidHasInvoiceId(request: EvaluationRequest)
    requires IsValid(request)
    ensures request.invoice.Some? && !IsNullOrWhiteSpace(request.invoice.value.invoiceId)
  {
    ValidIff(request);
    InvoiceValidator.ValidIff(request.invoice.value);
  }

  /** A null invoice reports that it is required and nothing from the invoice rules. */
  lemma MissingInvoiceSkipsInvoiceRules(request: EvaluationRequest)
    requires request.invoice.None?
    ensures InvoiceRequired in Validate(request)
    ensures forall f :: f in Validate(request) ==> f in Rules
  {
    assert Rules[3] == InvoiceRequired;
  }

  /** A null document reports only that it is required: the type and size rules are skipped. */
  lemma MissingDocumentSkipsDocumentRules(request: EvaluationRequest)
    requires request.document.None?
    ensures DocumentRequired in Validate(request)
    ensures OnlyPdfAccepted !in Validate(request) && FileTooLarge !in Validate(request)
  {
    assert Rules[0] == DocumentRequired;
    assert !Fails(request, OnlyPdfAccepted) && !Fails(request, FileTooLarge);
    assert OnlyPdfAccepted !in InvoiceFailures(request) && FileTooLarge !in InvoiceFailures(request);
  }

  /** A document of exactly 5 MB is accepted; one byte more is too large. */
  lemma SizeLimit(request: EvaluationRequest)
    requires request.document.Some?
    ensures FileTooLarge in Validate(request) <==> request.document.value.length > 5_242_880
  {
    assert Rules[2] == FileTooLarge;
    assert FileTooLarge !in InvoiceFailures(request);
  }

  /** The content type matches in any case, but only as the whole text. */
  lemma PdfContentTypes()
    ensures IsPdf(FormFile("APPLICATION/PDF", 0))
    ensures IsPdf(FormFile("Application/Pdf", 0))
    ensures !IsPdf(FormFile("application/pdf; charset=utf-8", 0))
    ensures !IsPdf(FormFile("application/octet-stream", 0))
  {
    var u := "APPLICATION/PDF";
    assert forall i :: 0 <= i < |u| ==> ToUpperAscii(u[i]) == ToUpperAscii(PdfContentType[i]);
    var m := "Application/Pdf";
    assert forall i :: 0 <= i < |m| ==> ToUpperAscii(m[i]) == ToUpperAscii(PdfContentType[i]);
    var o := "application/octet-stream";
    assert ToUpperAscii(o[12]) != ToUpperAscii(PdfContentType[12]);
  }

  /** With a document present, nothing reported ranks below the type rule. */
  lemma DocumentPresentRanks(request: EvaluationRequest)
    requires request.document.Some?
    ensures forall f :: f in Validate(request) ==> Rank(OnlyPdfAccepted) <= Rank(f)
  {
    forall f | f in Validate(request) ensures Rank(OnlyPdfAccepted) <= Rank(f) {
      if f !in InvoiceFailures(request) {
        assert f in Rules && Fails(request, f);
      }
    }
  }

  /** A large document that is not a PDF fails both document rules. */
  lemma LargeNonPdfFailsBoth(request: EvaluationRequest)
    requires request.document.Some?
    requires !IsPdf(request.document.value) && request.document.value.length > MaxFileSize
    ensures OnlyPdfAccepted in Validate(request) && FileTooLarge in Validate(request)
  {
    assert Rules[1] == OnlyPdfAccepted && Rules[2] == FileTooLarge;
  }

  /**
   * A large document that is not a PDF reports both, the type before the size,
   * ahead of anything about the invoice.
   */
  lemma LargeNonPdfReportsBoth(request: EvaluationRequest)
    requires request.document.Some?
    requires !IsPdf(request.document.value) && request.document.value.length > MaxFileSize
    ensures |Validate(request)| >= 2
    ensures Validate(request)[0] == OnlyPdfAccepted && Validate(request)[1] == FileTooLarge
  {
    DocumentPresentRanks(request);
    LargeNonPdfFailsBoth(request);
    FirstTwo(Validate(request), OnlyPdfAccepted, FileTooLarge);
  }
}
