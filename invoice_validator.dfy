/** `InvoiceValidator`: the six rules on the invoice details, in declaration order. */
module InvoiceValidator {
  import opened Wrappers
  import opened Models
  import opened Strings
  import opened IntParsing
  import opened Validation

  /** The rules, in the order they are declared. */
  const Rules: seq<ValidationFailure> := [
    InvoiceIdRequired, InvoiceNumberRequired, InvoiceNumberFormat,
    InvoiceDateRequired, CommentRequired, AmountRequired]

  /** `x.StartsWith('S') && x.Length == 6 && int.TryParse(x[1..], out _)`. */
  predicate HasInvoiceNumberFormat(x: string) {
    |x| > 0 && x[0] == 'S' && |x| == 6 && TryParseInt32(x[1..]).Some?
  }

  /** Whether `rule` reports a failure for `invoice`; a rule of another validator never does. */
  predicate Fails(invoice: InvoiceDetails, rule: ValidationFailure) {
    match rule
    case InvoiceIdRequired => IsNullOrWhiteSpace(invoice.invoiceId)
    case InvoiceNumberRequired => IsNullOrWhiteSpace(invoice.invoiceNumber)
    // the format rule runs only `When` the number is neither null nor empty
    case InvoiceNumberFormat =>
      !IsNullOrEmpty(invoice.invoiceNumber) && !HasInvoiceNumberFormat(invoice.invoiceNumber.value)
    case InvoiceDateRequired => invoice.invoiceDate.None?
    case CommentRequired => IsNullOrWhiteSpace(invoice.comment)
    case AmountRequired => invoice.amount.None?
    case _ => false
  }

  /** Which rules fail, listed in the order of `Rules`. */
  function Checks(invoice: InvoiceDetails): (failing: seq<bool>)
    ensures |failing| == |Rules|
    ensures forall i :: 0 <= i < |Rules| ==> failing[i] == Fails(invoice, Rules[i])
  {
    seq(|Rules|, i requires 0 <= i < |Rules| => Fails(invoice, Rules[i]))
  }

  /** Every rule runs; the failures are exactly the failing rules, in declaration order. */
  function Validate(invoice: InvoiceDetails): (errors: seq<ValidationFailure>)
    ensures InRuleOrder(errors)
    ensures forall f :: f in errors <==> f in Rules && Fails(invoice, f)
  {
    Failures(Checks(invoice), Rules)
  }

  /** `ValidationResult.IsValid` for the invoice alone. */
  predicate IsValid(invoice: InvoiceDetails) {
    Validate(invoice) == []
  }

  /** An invoice passes exactly when every one of its fields is present and the number is well formed. */
  lemma ValidIff(invoice: InvoiceDetails)
    ensures IsValid(invoice) <==>
      && !IsNullOrWhiteSpace(invoice.invoiceId)
      && invoice.invoiceNumber.Some? && HasInvoiceNumberFormat(invoice.invoiceNumber.value)
      && invoice.invoiceDate.Some?
      && !IsNullOrWhiteSpace(invoice.comment)
      && invoice.amount.Some?
  {
    NothingFailsIff(invoice);
    RulesPassIff(invoice);
    FieldsPassIff(invoice);
  }

  /** The six rules pass exactly when every field is present and the number is well formed. */
  lemma FieldsPassIff(invoice: InvoiceDetails)
    ensures
      (&& !Fails(invoice, InvoiceIdRequired) && !Fails(invoice, InvoiceNumberRequired)
       && !Fails(invoice, InvoiceNumberFormat) && !Fails(invoice, InvoiceDateRequired)
       && !Fails(invoice, CommentRequired) && !Fails(invoice, AmountRequired))
      <==>
      (&& !IsNullOrWhiteSpace(invoice.invoiceId)
       && invoice.invoiceNumber.Some? && HasInvoiceNumberFormat(invoice.invoiceNumber.value)
       && invoice.invoiceDate.Some?
       && !IsNullOrWhiteSpace(invoice.comment)
       && invoice.amount.Some?)
  {
    var n := invoice.invoiceNumber;
    if n.Some? && HasInvoiceNumberFormat(n.value) {
      assert n.value[0] == 'S' && !IsWhiteSpace(n.value[0]);
    }
  }

  /** An invoice passes when none of the rules fails. */
  lemma NothingFailsIff(invoice: InvoiceDetails)
    ensures IsValid(invoice) <==> forall f :: f in Rules ==> !Fails(invoice, f)
  {
    var errors := Validate(invoice);
    assert errors != [] ==> errors[0] in errors;
  }

  /** No rule fails exactly when each of the six passes. */
  lemma RulesPassIff(invoice: InvoiceDetails)
    ensures (forall f :: f in Rules ==> !Fails(invoice, f)) <==>
      && !Fails(invoice, InvoiceIdRequired) && !Fails(invoice, InvoiceNumberRequired)
      && !Fails(invoice, InvoiceNumberFormat) && !Fails(invoice, InvoiceDateRequired)
      && !Fails(invoice, CommentRequired) && !Fails(invoice, AmountRequired)
  {
    assert Rules[0] in Rules && Rules[1] in Rules && Rules[2] in Rules;
    assert Rules[3] in Rules && Rules[4] in Rules && Rules[5] in Rules;
  }

  /**
   * Each presence rule reports exactly when its field is missing: the id and the
   * comment when null, empty or white space, the date and the amount when null.
   */
  lemma RequiredFields(invoice: InvoiceDetails)
    ensures InvoiceIdRequired in Validate(invoice) <==> IsNullOrWhiteSpace(invoice.invoiceId)
    ensures InvoiceNumberRequired in Validate(invoice) <==> IsNullOrWhiteSpace(invoice.invoiceNumber)
    ensures InvoiceDateRequired in Validate(invoice) <==> invoice.invoiceDate.None?
    ensures CommentRequired in Validate(invoice) <==> IsNullOrWhiteSpace(invoice.comment)
    ensures AmountRequired in Validate(invoice) <==> invoice.amount.None?
  {
    assert Rules[0] == InvoiceIdRequired && Rules[1] == InvoiceNumberRequired;
    assert Rules[3] == InvoiceDateRequired && Rules[4] == CommentRequired && Rules[5] == AmountRequired;
  }

  /** The format rule is "S", then a five-character tail that `int.TryParse` accepts. */
  lemma FormatIff(x: string)
    ensures HasInvoiceNumberFormat(x) <==>
      |x| == 6 && x[0] == 'S' && exists i: nat, j: nat, k: nat :: IntegerShape(x[1..], i, j, k)
  {
    if |x| == 6 {
      ShortTextParses(x[1..]);
    }
  }

  /** A null or empty number reports only that it is required: the format rule is skipped. */
  lemma MissingNumberSkipsFormat(invoice: InvoiceDetails)
    requires IsNullOrEmpty(invoice.invoiceNumber)
    ensures InvoiceNumberRequired in Validate(invoice)
    ensures InvoiceNumberFormat !in Validate(invoice)
  {
  }

  /** A white-space-only number fails both the required rule and the format rule. */
  lemma WhiteSpaceNumberFailsBoth(invoice: InvoiceDetails)
    requires invoice.invoiceNumber.Some? && invoice.invoiceNumber.value != ""
    requires AllWhiteSpace(invoice.invoiceNumber.value)
    ensures InvoiceNumberRequired in Validate(invoice)
    ensures InvoiceNumberFormat in Validate(invoice)
  {
    assert IsWhiteSpace(invoice.invoiceNumber.value[0]);
  }

  /** The documented example passes the format rule. */
  lemma DocumentedNumberAccepted()
    ensures HasInvoiceNumberFormat("S12345")
  {
    AcceptedNumber("S12345", 0, 0, 5);
  }

  /**
   * A signed tail passes the format rule, with either sign, although it holds only
   * four digits: `S-1234` and `S+1234` both pass.
   */
  lemma SignedNumbersAccepted(x: string)
    requires |x| == 6 && x[0] == 'S' && IsSign(x[1])
    requires forall n :: 2 <= n <= 5 ==> IsDigit(x[n])
    ensures HasInvoiceNumberFormat(x)
  {
    AcceptedNumber(x, 0, 1, 5);
  }

  /** A tail with leading white space passes the format rule. */
  lemma PaddedNumberAccepted()
    ensures HasInvoiceNumberFormat("S 1234")
  {
    AcceptedNumber("S 1234", 1, 1, 5);
  }

  /** Trailing white space passes as well. */
  lemma TrailingSpaceNumberAccepted()
    ensures HasInvoiceNumberFormat("S1234 ")
  {
    AcceptedNumber("S1234 ", 0, 0, 4);
  }

  lemma AcceptedNumber(x: string, i: nat, j: nat, k: nat)
    requires |x| == 6 && x[0] == 'S' && i <= j < k <= 5
    requires forall n :: 1 <= n <= i ==> IsNumberWhite(x[n])
    requires j == i || (j == i + 1 && IsSign(x[j]))
    requires forall n :: j + 1 <= n <= k ==> IsDigit(x[n])
    requires forall n :: k + 1 <= n <= 5 ==> IsNumberWhite(x[n])
    ensures HasInvoiceNumberFormat(x)
  {
    FormatIff(x);
    assert IntegerShape(x[1..], i, j, k);
  }

  /** Too short and too long numbers fail the format rule. */
  lemma WrongLengthRejected(x: string)
    requires |x| != 6
    ensures !HasInvoiceNumberFormat(x)
  {
  }

  /** A number that does not start with "S" fails the format rule. */
  lemma WrongLetterRejected()
    ensures !HasInvoiceNumberFormat("A12345")
  {
  }

  /** White space between the digits fails the format rule. */
  lemma InnerSpaceRejected()
    ensures !HasInvoiceNumberFormat("S12 45")
  {
    var tail := "S12 45"[1..];
    assert tail == "12 45";
    WhiteBetweenDigitsRejected(tail, 1, 2, 3);
  }
}
