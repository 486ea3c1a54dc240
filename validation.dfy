/**
 * How a FluentValidation validator reports: every rule runs, in declaration order,
 * and each failing rule adds its message.
 */
module Validation {

  /**
   * A rule of the two validators, standing for the `ValidationFailure` it reports;
   * `ErrorMessage` is the text given to it with `WithMessage`.
   */
  datatype ValidationFailure =
    | DocumentRequired
    | OnlyPdfAccepted
    | FileTooLarge
    | InvoiceRequired
    | InvoiceIdRequired
    | InvoiceNumberRequired
    | InvoiceNumberFormat
    | InvoiceDateRequired
    | CommentRequired
    | AmountRequired
  {
    function ErrorMessage(): string {
      match this
      case DocumentRequired => "PDF document is required"
      case OnlyPdfAccepted => "Only PDF documents are accepted"
      case FileTooLarge => "The maximum file size is 5 MB"
      case InvoiceRequired => "Invoice details are required"
      case InvoiceIdRequired => "Invoice ID is required"
      case InvoiceNumberRequired => "Invoice number is required"
      case InvoiceNumberFormat => "Invoice number must start with 'S' followed by 5 digits"
      case InvoiceDateRequired => "Invoice date is required"
      case CommentRequired => "Comment is required"
      case AmountRequired => "Invoice amount is required"
    }
  }

  /** `validationResult.Errors.Select(e => e.ErrorMessage)`. */
  function ErrorMessages(failures: seq<ValidationFailure>): (messages: seq<string>)
    ensures |messages| == |failures|
    ensures forall i :: 0 <= i < |failures| ==> messages[i] == failures[i].ErrorMessage()
  {
    seq(|failures|, i requires 0 <= i < |failures| => failures[i].ErrorMessage())
  }

  /** The position of a rule among the rules of both validators as they are declared. */
  function Rank(rule: ValidationFailure): nat {
    match rule
    case DocumentRequired => 0
    case OnlyPdfAccepted => 1
    case FileTooLarge => 2
    case InvoiceRequired => 3
    case InvoiceIdRequired => 4
    case InvoiceNumberRequired => 5
    case InvoiceNumberFormat => 6
    case InvoiceDateRequired => 7
    case CommentRequired => 8
    case AmountRequired => 9
  }

  /** The failures stand in declaration order, each at most once. */
  predicate InRuleOrder(failures: seq<ValidationFailure>) {
    forall i, j :: 0 <= i < j < |failures| ==> Rank(failures[i]) < Rank(failures[j])
  }

  /**
   * What a validator reports: `failing[i]` says whether rule `rules[i]` failed, and the
   * failures are the failing rules in the order the rules run.
   */
  function Failures(failing: seq<bool>, rules: seq<ValidationFailure>): (errors: seq<ValidationFailure>)
    requires |failing| == |rules| && InRuleOrder(rules)
    ensures InRuleOrder(errors)
    ensures forall f :: f in errors ==> f in rules
    ensures forall i :: 0 <= i < |rules| ==> (rules[i] in errors <==> failing[i])
  {
    if rules == [] then []
    else
      var rest := Failures(failing[1..], rules[1..]);
      var first := if failing[0] then [rules[0]] else [];
      FirstRanksLowest(rules);
      InRuleOrderAppend(first, rest);
      first + rest
  }

  /** The first of rules in declaration order ranks below all the others. */
  lemma FirstRanksLowest(rules: seq<ValidationFailure>)
    requires |rules| > 0 && InRuleOrder(rules)
    ensures InRuleOrder(rules[1..])
    ensures forall x :: x in rules[1..] ==> Rank(rules[0]) < Rank(x)
    ensures forall i :: 1 <= i < |rules| ==> rules[1..][i - 1] == rules[i]
  {
  }

  /** Failures of earlier rules followed by failures of later rules stay in declaration order. */
  lemma InRuleOrderAppend(a: seq<ValidationFailure>, b: seq<ValidationFailure>)
    requires InRuleOrder(a) && InRuleOrder(b)
    requires forall x, y :: x in a && y in b ==> Rank(x) < Rank(y)
    ensures InRuleOrder(a + b)
  {
    forall i, j | 0 <= i < j < |a + b| ensures Rank((a + b)[i]) < Rank((a + b)[j]) {
      if j < |a| {
      } else if i >= |a| {
        assert (a + b)[i] == b[i - |a|] && (a + b)[j] == b[j - |a|];
      } else {
        assert (a + b)[i] == a[i] && (a + b)[j] == b[j - |a|];
      }
    }
  }

  /** A failure list in declaration order is fixed by which failures it holds. */
  lemma {:induction false} InRuleOrderUnique(a: seq<ValidationFailure>, b: seq<ValidationFailure>)
    requires InRuleOrder(a) && InRuleOrder(b)
    requires forall f :: f in a <==> f in b
    ensures a == b
  {
    assert a != [] ==> a[0] in b;
    assert b != [] ==> b[0] in a;
    if a != [] && b != [] {
      assert a[0] == b[0] by {
        assert a[0] in a && b[0] in b;
        var m :| 0 <= m < |b| && b[m] == a[0];
        var n :| 0 <= n < |a| && a[n] == b[0];
        assert Rank(b[0]) <= Rank(b[m]) && Rank(a[0]) <= Rank(a[n]);
      }
      FirstRanksLowest(a);
      FirstRanksLowest(b);
      forall f ensures f in a[1..] <==> f in b[1..] {
        assert f in a[1..] <==> f in a && f != a[0];
        assert f in b[1..] <==> f in b && f != b[0];
      }
      InRuleOrderUnique(a[1..], b[1..]);
      assert a == [a[0]] + a[1..] && b == [b[0]] + b[1..];
    }
  }

  /**
   * When `x` and `y` are reported and nothing else ranks below `y` except `x`, the
   * report opens with `x` then `y`.
   */
  lemma FirstTwo(errors: seq<ValidationFailure>, x: ValidationFailure, y: ValidationFailure)
    requires InRuleOrder(errors) && x in errors && y in errors && Rank(x) + 1 == Rank(y)
    requires forall f :: f in errors ==> Rank(x) <= Rank(f)
    ensures |errors| >= 2 && errors[0] == x && errors[1] == y
  {
    var a :| 0 <= a < |errors| && errors[a] == x;
    var b :| 0 <= b < |errors| && errors[b] == y;
    assert errors[0] in errors;
    assert a == 0;
    assert errors[1] in errors;
    assert b == 1;
  }
}
