/**
 The two request handlers, reduced to the decision they make: a request
 either gets a 400 `BadRequest` (validation errors, or a batch-level
 message) or a 200 `Ok` carrying the service's result.
 */
module SimulationController {
  import opened InterestCalculator
  import opened SimulationRoutes
  import SimulationService

  const MaxBatchSize: nat := 10000
  const NotArrayMessage: string := "simulations must be an array"
  const LimitPhrase: string := "exceeds maximum limit"
  /** "Batch size exceeds maximum limit of 10,000 simulations" */
  const BatchLimitMessage: string := "Batch size " + LimitPhrase + " of 10,000 simulations"

  /** The JSON body of a 400 response. */
  datatype ErrorBody = Errors(errors: seq<ValidationError>) | Message(error: string)

  datatype Outcome<T> = BadRequest(body: ErrorBody) | Ok(value: T)

  /** The handler's decision on a batch before any computation. */
  datatype Admission = Reject(body: ErrorBody) | Admit(requests: seq<SimulationService.SimulationRequest>)

  /** `text` occurs in `s` starting at position `k`. */
  predicate OccursAt(s: string, text: string, k: int)
  {
    0 <= k <= |s| - |text| && s[k..k + |text|] == text
  }

  /** `text` occurs in `s`. */
  ghost predicate Contains(s: string, text: string)
  {
    exists k :: OccursAt(s, text, k)
  }

  /** The service request built from a validated body's three fields. */
  function ToRequest(body: InquiryBody, isIsoDate: string -> bool): (request: SimulationService.SimulationRequest)
    requires InquiryValid(body, isIsoDate)
    ensures body.loanAmount.Num? && request.loanAmount == body.loanAmount.value
    ensures body.birthDate.Text? && request.birthDate == body.birthDate.text
    ensures body.termInMonths.Num? && request.termInMonths as real == body.termInMonths.value
    ensures request.loanAmount > 0.0 && 1 <= request.termInMonths <= 600
  {
    ValidFieldsMeetEngine(body, isIsoDate);
    SimulationService.SimulationRequest(
      body.loanAmount.value, body.birthDate.text, body.termInMonths.value.Floor)
  }

  /** `ToRequest` over every element of a validated batch. */
  function ToRequests(items: seq<InquiryBody>, isIsoDate: string -> bool): (requests: seq<SimulationService.SimulationRequest>)
    requires forall j :: 0 <= j < |items| ==> InquiryValid(items[j], isIsoDate)
    ensures |requests| == |items|
    ensures forall j :: 0 <= j < |items| ==> requests[j] == ToRequest(items[j], isIsoDate)
    ensures SimulationService.AllComputable(requests)
  {
    if items == [] then []
    else
      ValidFieldsMeetEngine(items[0], isIsoDate);
      [ToRequest(items[0], isIsoDate)] + ToRequests(items[1..], isIsoDate)
  }

  /** A request built from a valid body satisfies the engine's
      preconditions: a positive principal and a term of at least one month,
      so the monthly payment is defined whatever the borrower's age. */
  lemma AdmittedRequestMeetsEngine(body: InquiryBody, isIsoDate: string -> bool, age: Age)
    requires InquiryValid(body, isIsoDate)
    ensures var request := ToRequest(body, isIsoDate);
            && request.loanAmount > 0.0
            && 1 <= request.termInMonths <= 600
            && request.termInMonths as real == body.termInMonths.value
            && PaymentDefined(PolicyRate(age), request.termInMonths)
  {
    ValidFieldsMeetEngine(body, isIsoDate);
    PositiveRateCostsInterest(body.loanAmount.value, PolicyRate(age), body.termInMonths.value.Floor);
  }

  /** `simulateSingle`: validation errors give a 400 carrying them;
      otherwise the service's response for the body's three fields. */
  function SimulateSingle(body: InquiryBody, isIsoDate: string -> bool, ageOf: string -> Age)
    : (outcome: Outcome<SimulationService.SimulationResponse>)
    ensures outcome.BadRequest? <==> !InquiryValid(body, isIsoDate)
    ensures outcome.BadRequest? ==>
              && outcome.body.Errors?
              && outcome.body.errors == ValidateSingle(body, isIsoDate)
              && outcome.body.errors != []
    ensures outcome.Ok? ==>
              && body.loanAmount.Num? && body.birthDate.Text? && body.termInMonths.Num?
              && outcome.value.loanAmount == body.loanAmount.value
              && outcome.value.birthDate == body.birthDate.text
              && outcome.value.termInMonths as real == body.termInMonths.value
              && outcome.value.interestRate == PolicyRate(ageOf(body.birthDate.text))
              && WholeCents(outcome.value.monthlyPayment)
              && WholeCents(outcome.value.totalPayable)
              && WholeCents(outcome.value.totalInterest)
  {
    var errors := ValidateSingle(body, isIsoDate);
    if errors != [] then
      BadRequest(Errors(errors))
    else
      ValidFieldsMeetEngine(body, isIsoDate);
      Ok(SimulationService.SimulateLoan(ToRequest(body, isIsoDate), ageOf))
  }

  /** A rejected single request does not depend on the engine: the outcome
      is the same whatever age the birth date would give. */
  lemma RejectedSingleSkipsEngine(body: InquiryBody, isIsoDate: string -> bool, ageOf: string -> Age, ageOf': string -> Age)
    requires !InquiryValid(body, isIsoDate)
    ensures SimulateSingle(body, isIsoDate, ageOf) == SimulateSingle(body, isIsoDate, ageOf')
  {
  }

  /** An admitted single request yields the service's response to the
      request made of the body's three fields. */
  lemma AdmittedSingleIsServiceResponse(body: InquiryBody, isIsoDate: string -> bool, ageOf: string -> Age)
    requires InquiryValid(body, isIsoDate)
    ensures ToRequest(body, isIsoDate).termInMonths >= 1
    ensures SimulateSingle(body, isIsoDate, ageOf) == Ok(SimulationService.SimulateLoan(ToRequest(body, isIsoDate), ageOf))
  {
    ValidFieldsMeetEngine(body, isIsoDate);
  }

  /** A birth date that passes the ISO 8601 rule but does not parse gives a
      NaN age, and the request is priced at the open-ended rate 0.04 whatever
      the borrower's real age. */
  lemma UnparsedBirthDateGetsOpenEndedRate(body: InquiryBody, isIsoDate: string -> bool, ageOf: string -> Age)
    requires InquiryValid(body, isIsoDate) && ageOf(body.birthDate.text) == NotANumber
    ensures SimulateSingle(body, isIsoDate, ageOf).Ok?
    ensures SimulateSingle(body, isIsoDate, ageOf).value.interestRate == OpenEndedRate
  {
  }

  /** The admission checks of `simulateBatch`, in their order: validation
      errors, the array check, the 10 000 cap. */
  function AdmitBatch(body: BatchBody, isIsoDate: string -> bool): (admission: Admission)
    ensures admission.Admit? <==> BatchValid(body, isIsoDate) && |body.items| <= MaxBatchSize
    ensures admission.Admit? ==>
              && |admission.requests| == |body.items|
              && SimulationService.AllComputable(admission.requests)
              && forall j :: 0 <= j < |body.items| ==> admission.requests[j] == ToRequest(body.items[j], isIsoDate)
    ensures !BatchValid(body, isIsoDate) ==> admission == Reject(Errors(ValidateBatch(body, isIsoDate)))
    ensures BatchValid(body, isIsoDate) && |body.items| > MaxBatchSize ==> admission == Reject(Message(BatchLimitMessage))
  {
    var errors := ValidateBatch(body, isIsoDate);
    if errors != [] then Reject(Errors(errors))
    else if !body.Items? then Reject(Message(NotArrayMessage))
    else if |body.items| > MaxBatchSize then Reject(Message(BatchLimitMessage))
    else Admit(ToRequests(body.items, isIsoDate))
  }

  /** A batch that is not an array, or is empty, is refused by validation
      (so the handler's own array check never fires). */
  lemma NonArrayOrEmptyBatchRejected(body: BatchBody, isIsoDate: string -> bool)
    requires body.NotArray? || |body.items| == 0
    ensures AdmitBatch(body, isIsoDate).Reject?
    ensures AdmitBatch(body, isIsoDate).body.Errors?
    ensures ValidationError(Simulations) in AdmitBatch(body, isIsoDate).body.errors
  {
  }

  /** One invalid element refuses the whole batch. */
  lemma OneBadElementRejectsBatch(items: seq<InquiryBody>, j: nat, isIsoDate: string -> bool)
    requires j < |items| && !InquiryValid(items[j], isIsoDate)
    ensures AdmitBatch(Items(items), isIsoDate) == Reject(Errors(ValidateBatch(Items(items), isIsoDate)))
    ensures ValidateBatch(Items(items), isIsoDate) != []
  {
  }

  /** The cap is strict: a valid batch of exactly 10 000 is admitted, one of
      10 001 is refused with the "exceeds maximum limit" message. */
  lemma BatchCapBoundary(items: seq<InquiryBody>, isIsoDate: string -> bool)
    requires BatchValid(Items(items), isIsoDate)
    ensures |items| == MaxBatchSize ==> AdmitBatch(Items(items), isIsoDate).Admit?
    ensures |items| == MaxBatchSize + 1 ==> AdmitBatch(Items(items), isIsoDate) == Reject(Message(BatchLimitMessage))
    ensures Contains(BatchLimitMessage, LimitPhrase)
  {
    var prefix := "Batch size ";
    assert BatchLimitMessage[|prefix|..|prefix| + |LimitPhrase|] == LimitPhrase;
    assert OccursAt(BatchLimitMessage, LimitPhrase, |prefix|);
  }

  /** `simulateBatch`: a refused batch gets its 400 without any
      computation; an admitted one gets the batch runner's response
      unchanged. */
  method SimulateBatch(body: BatchBody, isIsoDate: string -> bool, ageOf: string -> Age)
    returns (outcome: Outcome<SimulationService.BatchSimulationResponse>)
    ensures AdmitBatch(body, isIsoDate).Reject? ==> outcome == BadRequest(AdmitBatch(body, isIsoDate).body)
    ensures AdmitBatch(body, isIsoDate).Admit? ==>
              && outcome.Ok?
              && outcome.value.results == SimulationService.SimulateAll(AdmitBatch(body, isIsoDate).requests, ageOf)
              && outcome.value.totalSimulations == |body.items|
              && outcome.value.processedSimulations == |body.items|
  {
    var admission := AdmitBatch(body, isIsoDate);
    match admission
    case Reject(error) =>
      outcome := BadRequest(error);
    case Admit(requests) =>
      var response := SimulationService.SimulateBatch(requests, ageOf);
      outcome := Ok(response);
  }
}
