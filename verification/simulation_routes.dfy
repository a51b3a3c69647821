/**
 Request validation for the two endpoints, `POST /simulate` and
 `POST /simulate/batch`. Each rule contributes one error (field, message)
 when its field fails; a request is admitted exactly when the error list
 is empty.

 A JSON field value is `Missing`, a number or a string. Whether a string is
 an ISO 8601 date is injected as `isIsoDate`.
 */
module SimulationRoutes {

  datatype Field = Missing | Num(value: real) | Text(text: string)

  /** The body of a single simulation request (or one batch element; an
      element that is not an object reads as all fields `Missing`). */
  datatype InquiryBody = InquiryBody(loanAmount: Field, birthDate: Field, termInMonths: Field)

  /** The `simulations` field of a batch request. */
  datatype BatchBody = NotArray | Items(items: seq<InquiryBody>)

  datatype FieldName = LoanAmount | BirthDate | TermInMonths

  /** Where an error was found: a top-level field, the `simulations` array,
      or a field of its element at `index`. */
  datatype Param = Body(name: FieldName) | Simulations | Element(index: nat, name: FieldName)

  /** One error of the validation result; its message is fixed by the rule
      that reported it, hence by where it was found. */
  datatype ValidationError = ValidationError(param: Param)
  {
    function msg(): string
    {
      match param
      case Body(name) => SingleMessage(name)
      case Simulations => ArrayMessage
      case Element(_, name) => ElementMessage(name)
    }
  }

  const MinLoanAmount: real := 0.01
  const MinTerm: int := 1
  const MaxTerm: int := 600

  predicate IsInteger(x: real)
  {
    x.Floor as real == x
  }

  /** `isFloat({ min: 0.01 })` */
  predicate AmountValid(f: Field)
  {
    f.Num? && f.value >= MinLoanAmount
  }

  /** `isISO8601()` */
  predicate DateValid(f: Field, isIsoDate: string -> bool)
  {
    f.Text? && isIsoDate(f.text)
  }

  /** `isInt({ min: 1, max: 600 })` */
  predicate TermValid(f: Field)
  {
    f.Num? && IsInteger(f.value) && MinTerm as real <= f.value <= MaxTerm as real
  }

  /** The rule for one field; single requests and batch elements share it. */
  predicate FieldValid(body: InquiryBody, name: FieldName, isIsoDate: string -> bool)
  {
    match name
    case LoanAmount => AmountValid(body.loanAmount)
    case BirthDate => DateValid(body.birthDate, isIsoDate)
    case TermInMonths => TermValid(body.termInMonths)
  }

  predicate InquiryValid(body: InquiryBody, isIsoDate: string -> bool)
  {
    && FieldValid(body, LoanAmount, isIsoDate)
    && FieldValid(body, BirthDate, isIsoDate)
    && FieldValid(body, TermInMonths, isIsoDate)
  }

  predicate BatchValid(body: BatchBody, isIsoDate: string -> bool)
  {
    && body.Items?
    && |body.items| >= 1
    && forall j :: 0 <= j < |body.items| ==> InquiryValid(body.items[j], isIsoDate)
  }

  function SingleMessage(name: FieldName): string
  {
    match name
    case LoanAmount => "Loan amount must be a positive number"
    case BirthDate => "Birth date must be a valid ISO 8601 date"
    case TermInMonths => "Term must be between 1 and 600 months"
  }

  function ElementMessage(name: FieldName): string
  {
    match name
    case LoanAmount => "Each loan amount must be a positive number"
    case BirthDate => "Each birth date must be a valid ISO 8601 date"
    case TermInMonths => "Each term must be between 1 and 600 months"
  }

  const ArrayMessage: string := "simulations must be a non-empty array"

  /** The error one rule reports for one field, if any. */
  function FieldError(body: InquiryBody, name: FieldName, isIsoDate: string -> bool, param: Param): seq<ValidationError>
  {
    if FieldValid(body, name, isIsoDate) then [] else [ValidationError(param)]
  }

  /** The validation chain of a single request, rule by rule. */
  function ValidateSingle(body: InquiryBody, isIsoDate: string -> bool): (errors: seq<ValidationError>)
    ensures errors == [] <==> InquiryValid(body, isIsoDate)
    ensures forall name: FieldName ::
              ValidationError(Body(name)) in errors <==> !FieldValid(body, name, isIsoDate)
    ensures forall e :: e in errors ==> e.param.Body? && !FieldValid(body, e.param.name, isIsoDate)
  {
    FieldError(body, LoanAmount, isIsoDate, Body(LoanAmount))
    + FieldError(body, BirthDate, isIsoDate, Body(BirthDate))
    + FieldError(body, TermInMonths, isIsoDate, Body(TermInMonths))
  }

  /** `e` reports element `e.param.index` (counted from `offset`) failing
      the rule for `name`. */
  predicate ElementErrorFor(items: seq<InquiryBody>, name: FieldName, isIsoDate: string -> bool, offset: nat, e: ValidationError)
  {
    && e.param.Element?
    && e.param.name == name
    && offset <= e.param.index < offset + |items|
    && !FieldValid(items[e.param.index - offset], name, isIsoDate)
  }

  /** Every element failing a wildcard rule is reported. */
  lemma {:induction false} ElementErrorsComplete(items: seq<InquiryBody>, name: FieldName, isIsoDate: string -> bool, offset: nat, j: nat)
    requires j < |items| && !FieldValid(items[j], name, isIsoDate)
    ensures ValidationError(Element(offset + j, name)) in ElementErrors(items, name, isIsoDate, offset)
    decreases j
  {
    if j > 0 {
      ElementErrorsComplete(items[1..], name, isIsoDate, offset + 1, j - 1);
      assert items[1..][j - 1] == items[j];
    }
  }

  /** One wildcard rule (`simulations.*.<name>`) applied to the elements,
      the first of which sits at position `offset` of the array. */
  function ElementErrors(items: seq<InquiryBody>, name: FieldName, isIsoDate: string -> bool, offset: nat)
    : (errors: seq<ValidationError>)
    ensures errors == [] <==> forall j :: 0 <= j < |items| ==> FieldValid(items[j], name, isIsoDate)
    ensures forall e :: e in errors ==> ElementErrorFor(items, name, isIsoDate, offset, e)
    decreases |items|
  {
    if items == [] then []
    else
      FieldError(items[0], name, isIsoDate, Element(offset, name))
      + ElementErrors(items[1..], name, isIsoDate, offset + 1)
  }

  /** Every element is valid exactly when every element passes each of
      the three rules. */
  lemma AllValidIffEachRule(items: seq<InquiryBody>, isIsoDate: string -> bool)
    ensures (forall j :: 0 <= j < |items| ==> InquiryValid(items[j], isIsoDate))
        <==> && (forall j :: 0 <= j < |items| ==> FieldValid(items[j], LoanAmount, isIsoDate))
             && (forall j :: 0 <= j < |items| ==> FieldValid(items[j], BirthDate, isIsoDate))
             && (forall j :: 0 <= j < |items| ==> FieldValid(items[j], TermInMonths, isIsoDate))
  {
  }

  /** The validation chain of a batch request: the array rule, then each
      wildcard rule over all elements. */
  function ValidateBatch(body: BatchBody, isIsoDate: string -> bool): (errors: seq<ValidationError>)
    ensures errors == [] <==> BatchValid(body, isIsoDate)
    ensures ValidationError(Simulations) in errors <==> !(body.Items? && |body.items| >= 1)
  {
    match body
    case NotArray => [ValidationError(Simulations)]
    case Items(items) =>
      var arrayErrors := if |items| >= 1 then [] else [ValidationError(Simulations)];
      AllValidIffEachRule(items, isIsoDate);
      arrayErrors
      + ElementErrors(items, LoanAmount, isIsoDate, 0)
      + ElementErrors(items, BirthDate, isIsoDate, 0)
      + ElementErrors(items, TermInMonths, isIsoDate, 0)
  }

  /** A batch element is checked by exactly the rules of a single request:
      element `j` has an error on a field if and only if the same body sent
      alone would have an error on that field. */
  lemma ElementRulesMatchSingle(items: seq<InquiryBody>, j: nat, name: FieldName, isIsoDate: string -> bool)
    requires j < |items|
    ensures ValidationError(Element(j, name)) in ValidateBatch(Items(items), isIsoDate)
        <==> ValidationError(Body(name)) in ValidateSingle(items[j], isIsoDate)
  {
    var e := ValidationError(Element(j, name));
    var errs := ValidateBatch(Items(items), isIsoDate);
    var arrayErrors := if |items| >= 1 then [] else [ValidationError(Simulations)];
    var la := ElementErrors(items, LoanAmount, isIsoDate, 0);
    var bd := ElementErrors(items, BirthDate, isIsoDate, 0);
    var tm := ElementErrors(items, TermInMonths, isIsoDate, 0);
    assert errs == arrayErrors + la + bd + tm;
    assert e in errs <==> e in arrayErrors || e in la || e in bd || e in tm;
    if !FieldValid(items[j], name, isIsoDate) {
      ElementErrorsComplete(items, name, isIsoDate, 0, j);
    }
  }

  /** A field that passes validation gives the engine what it needs: a
      positive amount and a whole term of 1 to 600 months. */
  lemma ValidFieldsMeetEngine(body: InquiryBody, isIsoDate: string -> bool)
    requires InquiryValid(body, isIsoDate)
    ensures body.loanAmount.Num? && body.loanAmount.value > 0.0
    ensures body.termInMonths.Num? && body.termInMonths.value.Floor as real == body.termInMonths.value
    ensures 1 <= body.termInMonths.value.Floor <= 600
    ensures body.birthDate.Text?
  {
  }

  /** The rules' boundary cases: 0.01 is the smallest amount admitted and
      negative amounts are refused; terms 1 and 600 are admitted, 0, 700
      and fractional terms are refused; an empty batch is refused. */
  lemma ValidationBoundaries(isIsoDate: string -> bool)
    ensures AmountValid(Num(0.01)) && !AmountValid(Num(0.009)) && !AmountValid(Num(-5000.0))
    ensures TermValid(Num(1.0)) && TermValid(Num(600.0))
    ensures !TermValid(Num(0.0)) && !TermValid(Num(700.0)) && !TermValid(Num(12.5))
    ensures ValidateBatch(Items([]), isIsoDate) != []
    ensures ValidateBatch(NotArray, isIsoDate) != []
  {
    assert (12.5).Floor == 12;
  }
}
