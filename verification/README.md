# CreditSim loan simulator — Dafny model

This project models the computational core of CreditSim, a loan simulator
service. Given a principal, the borrower's birth date and a term in months,
it reports the fixed monthly payment, the total payable, the total interest
and the annual rate applied. The rate depends on the borrower's age bracket.
Requests arrive one at a time (`POST /api/simulate`) or as a batch of up to
10 000 (`POST /api/simulate/batch`; the router is mounted under `/api` in
src/index.ts:10), which is evaluated in chunks of 100.

The model has four modules, one per source file:

- `InterestCalculator` (`interest_calculator.dfy`) holds the age-bracket
  rate policy and the amortization engine. It covers the annuity formula
  with its straight-line zero-rate branch, the totals, and rounding to cents.
  Arithmetic is over exact `real`s. `Pow` stands for `Math.pow` with a
  natural exponent. `Round2(x) = floor(100x + 0.5) / 100` stands for
  `Math.round(x * 100) / 100`.
- `SimulationService` (`simulation_service.dfy`) holds `SimulateLoan`, which
  echoes the request and adds the figures. It also holds the batch runner: a
  method whose loop slices the input into chunks of 100 and appends each
  chunk's results in order.
- `SimulationRoutes` (`simulation_routes.dfy`) holds the request validators.
  Each rule contributes one error naming the field it found failing. The
  error's `msg()` is the source's message for that rule, and a request is
  admitted exactly when the list of errors is empty.
- `SimulationController` (`simulation_controller.dfy`) holds the two
  handlers, reduced to an outcome `BadRequest(body) | Ok(result)`. For a
  batch there is also the admission decision that comes before any
  computation: validation, the array check, and the 10 000 cap.

Each property has a partner. The rate function is proved equal to a linear
scan of an ordered bracket table. The monthly payment is characterised by the
loan balance recurrence: after n payments the balance is zero exactly when
the payment is the formula's. `Round2` is characterised as the unique
whole-cent amount within half a cent. The chunked batch loop is proved equal
to a plain map over the whole input. The validators are proved equivalent to
validity predicates that single requests and batch elements share.

The borrower's age is a parameter. The service takes `ageOf: string -> Age`,
which stands for `differenceInYears(new Date(), new Date(birthDate))`. An
`Age` is a JavaScript number: `Years(n)` for whole years, or `NotANumber`
when the birth date does not parse to a valid `Date`. The model reads the
clock once per batch: one `ageOf` serves every request of a batch. The source
reads it once per request, so a batch running across a birthday can give two
requests with the same birth date different ages; the model does not cover
that. Whether a string is an ISO 8601 date is the injected predicate
`isIsoDate`.

Notes on the source's behaviour:

- The amount rule is `isFloat({ min: 0.01 })`, so 0.01 is the smallest
  amount admitted.
- The rate function accepts every integer age. A negative age (a birth date
  in the future) falls in the first bracket, at 0.05.
- A NaN age fails all three `<=` tests of the rate function, so it gets the
  over-60 rate, 0.04. This happens when a birth date passes the ISO 8601
  rule but `new Date` cannot parse it. An ISO week date such as "2000-W01"
  is one example: such a borrower is priced at 0.04 whatever their real age.
- Within a chunk, each item is computed synchronously before
  `Promise.resolve` wraps it. Nothing runs concurrently, so the batch is
  modelled as a sequential loop.
- `calculateLoanSimulation` only ever receives a rate from the policy, and
  every such rate is positive. So the zero-rate branch of the payment formula
  is reachable only when `calculateMonthlyPayment` is called directly.

## Model

| member | source | states |
|---|---|---|
| InterestCalculator.AnnualInterestRate | src/utils/interestCalculator.ts:7-17 | each rate is returned exactly for its bracket: 0.05 iff age ≤ 25, 0.03 iff 26..40, 0.02 iff 41..60, 0.04 iff ≥ 61; the boundaries fall on the stated side and the rate is always positive |
| InterestCalculator.PolicyRate | src/utils/interestCalculator.ts:7-17 | the rate function on a JavaScript number age, with `<=` false for NaN: a whole-year age gets the bracket rate of AnnualInterestRate, a NaN age falls through every test to 0.04, and the rate is always positive |
| InterestCalculator.RateMatchesTable | src/utils/interestCalculator.ts:7-17 | for every age the rate equals a linear scan of the ordered table (25 → 0.05, 40 → 0.03, 60 → 0.02, above → 0.04) |
| InterestCalculator.BracketsPartitionAges | src/utils/interestCalculator.ts:7-17 | the brackets cover every integer age, with no gaps and no overlaps, and the rate is the rate of the bracket the age falls in |
| InterestCalculator.PowAboveOne | src/utils/interestCalculator.ts:29-30 | a growth factor above 1 raised to a positive power stays above 1, so the annuity denominator is non-zero |
| InterestCalculator.Round2 | src/utils/interestCalculator.ts:63-65 | the rounded amount is a whole number of cents and lies in (x − 0.005, x + 0.005] |
| InterestCalculator.Round2Unique | src/utils/interestCalculator.ts:63-65 | any whole-cent amount in (x − 0.005, x + 0.005] is the rounded value, which pins rounding down as half-up to the nearest cent |
| InterestCalculator.Round2Monotone | src/utils/interestCalculator.ts:63-65 | rounding preserves order |
| InterestCalculator.Round2Shift | src/utils/interestCalculator.ts:63-65 | subtracting a whole-cent amount commutes with rounding |
| InterestCalculator.MonthlyPayment | src/utils/interestCalculator.ts:19-33 | the payment clears the loan: after `months` payments, with interest compounding monthly at rate/12, the balance is exactly 0 (both branches); at a zero rate, payment · months = principal. PaymentAmortizes adds that it is the only such payment |
| InterestCalculator.TotalInterest | src/utils/interestCalculator.ts:35-42 | principal + interest = total payable (payment · months), and interest is positive exactly when the borrower pays back more than the principal |
| InterestCalculator.BalanceClosedForm | src/utils/interestCalculator.ts:28-32 | the balance after k payments b_k satisfies r · b_k = P·r·(1+r)^k − x·((1+r)^k − 1) |
| InterestCalculator.ClosedFormStep | src/utils/interestCalculator.ts:28-32 | one month of compounding then paying keeps a balance in closed form, with the growth factor multiplied by 1 + r |
| InterestCalculator.BalanceZeroRate | src/utils/interestCalculator.ts:24-26 | without interest, the balance after k payments is P − k·x |
| InterestCalculator.PaymentAmortizes | src/utils/interestCalculator.ts:19-33 | with monthly compounding at rate/12, n payments of x clear the principal exactly iff x is the computed monthly payment (both branches) |
| InterestCalculator.StraightLineUnique | src/utils/interestCalculator.ts:24-26 | n equal payments clear P exactly when each payment is P / n |
| InterestCalculator.AnnuityUnique | src/utils/interestCalculator.ts:28-32 | in the closed form, the balance vanishes only for the annuity payment |
| InterestCalculator.ZeroRateStraightLine | src/utils/interestCalculator.ts:19-42 | at rate 0 with months ≥ 1: payment · months = principal and total interest is exactly 0 |
| InterestCalculator.AnnuityBound | src/utils/interestCalculator.ts:28-32 | (1+r)^n − 1 < n·r·(1+r)^n for r > 0 and n ≥ 1 |
| InterestCalculator.AnnuityExceedsPrincipal | src/utils/interestCalculator.ts:28-32 | under that bound, the annuity payment is positive and n payments exceed the principal |
| InterestCalculator.PositiveRateCostsInterest | src/utils/interestCalculator.ts:19-42 | at a positive rate with months ≥ 1, the payment is defined; for a positive principal it is > 0, payment · months > principal, and total interest > 0 |
| InterestCalculator.LoanSimulation | src/utils/interestCalculator.ts:51-68 | interestRate is the policy's rate for the age (0.04 for a NaN age), unrounded; monthlyPayment, totalPayable and totalInterest are the roundings of the unrounded payment, payment·n and payment·n − P, so neither total uses the rounded payment; each is whole cents within half a cent of its unrounded value; for a positive principal all are non-negative and totalPayable ≥ the rounded principal; for a whole-cent principal, totalPayable − totalInterest = principal |
| InterestCalculator.RoundedFigures | src/utils/interestCalculator.ts:58-65 | rounding keeps a positive payment and positive interest non-negative, and keeps totalPayable at or above the rounded principal |
| InterestCalculator.RoundedTotalsDifferByPrincipal | src/utils/interestCalculator.ts:58-65 | for a whole-cent principal, round(total) − round(total − P) = P |
| InterestCalculator.ReferenceFigures | src/utils/interestCalculator.ts:19-33 | 12 000 at 0% over 12 months pays 1 000 a month; 10 000 at 5% over 12 months pays 856.07 a month after rounding |
| SimulationService.SimulateLoan | src/services/simulationService.ts:31-49 | loanAmount, birthDate and termInMonths are echoed unchanged; the four figures are those of the loan simulation for the borrower's age; the rate is the policy's rate and the money figures are whole cents |
| SimulationService.SimulateAll | src/services/simulationService.ts:62-69 | the plain map: one response per request, with response j the simulation of request j |
| SimulationService.SimulateAllAppend | src/services/simulationService.ts:68 | mapping a concatenation gives the concatenation of the maps, so appended chunk results line up with the input |
| SimulationService.ChunksPartition | src/services/simulationService.ts:59-63 | the slices s[i .. min(i+100, n)] for i = 0, 100, … are non-empty, hold at most 100 elements, number ⌈n/100⌉, and concatenate back to s |
| SimulationService.ChunksFlatten | src/services/simulationService.ts:62-63 | the chunks concatenate back to the input |
| SimulationService.ChunksCount | src/services/simulationService.ts:62-63 | there are ⌈n/100⌉ chunks, each with 1 to 100 elements |
| SimulationService.ChunkAt | src/services/simulationService.ts:62-63 | chunk c is exactly the slice s[100c .. min(100c + 100, n)] |
| SimulationService.ChunkStep | src/services/simulationService.ts:59-68 | the results of the prefix s[..i] followed by those of the chunk s[i..end] are the results of s[..end] |
| SimulationService.SimulateBatch | src/services/simulationService.ts:51-80 | loop invariant: i = 100c, the slice processed is chunk c of Chunks, and results = map over simulations[..min(i, n)]. Results are in input order (results[j] is the simulation of request j), so the output equals the unchunked map; totalSimulations = processedSimulations = input length |
| SimulationRoutes.ValidateSingle | src/routes/simulationRoutes.ts:8-18 | no errors iff amount ≥ 0.01, the date is ISO 8601, and the term is an integer in 1..600; there is an error for a field iff that field fails its rule, and every error names a failing field |
| SimulationRoutes.ElementErrors | src/routes/simulationRoutes.ts:24-32 | a wildcard rule reports nothing iff every element passes it; each error names a failing element and field (that every failing element is reported is ElementErrorsComplete) |
| SimulationRoutes.ElementErrorsComplete | src/routes/simulationRoutes.ts:24-32 | every element failing a wildcard rule is reported at its own index |
| SimulationRoutes.AllValidIffEachRule | src/routes/simulationRoutes.ts:24-32 | all elements are valid exactly when every element passes each of the three wildcard rules |
| SimulationRoutes.ValidateBatch | src/routes/simulationRoutes.ts:20-33 | no errors iff `simulations` is an array of length ≥ 1 whose every element is valid, so one bad element rejects the batch; the array error is reported iff it is not a non-empty array |
| SimulationRoutes.ElementRulesMatchSingle | src/routes/simulationRoutes.ts:8-33 | element j has an error on a field iff the same body sent alone has an error on that field |
| SimulationRoutes.ValidFieldsMeetEngine | src/routes/simulationRoutes.ts:9-17 | a valid body has a numeric amount > 0, an integral term in 1..600, and a string date |
| SimulationRoutes.ValidationBoundaries | src/routes/simulationRoutes.ts:8-33 | 0.01 is admitted; 0.009 and −5000 are refused; terms 1 and 600 are admitted; 0, 700 and 12.5 are refused; an empty or non-array batch is refused |
| SimulationController.ToRequest | src/controllers/simulationController.ts:16-22 | a valid body becomes the request of its own three fields: the numeric amount (> 0), the birth-date string, and the integral term (1..600) unchanged |
| SimulationController.ToRequests | src/controllers/simulationController.ts:41-55 | each batch element becomes the request of its three fields, in order, and every term is ≥ 1 |
| SimulationController.AdmittedRequestMeetsEngine | src/controllers/simulationController.ts:16-22 | a request built from a valid body has principal > 0 and term in 1..600, so the payment's divisions are defined for every age |
| SimulationController.SimulateSingle | src/controllers/simulationController.ts:8-31 | BadRequest iff validation failed, carrying the non-empty error list; otherwise Ok with the body's fields echoed, the policy's rate for the borrower's age, and whole-cent figures |
| SimulationController.RejectedSingleSkipsEngine | src/controllers/simulationController.ts:9-13 | a rejected request's outcome does not depend on the engine (it is the same for every age function) |
| SimulationController.AdmittedSingleIsServiceResponse | src/controllers/simulationController.ts:16-24 | an admitted request yields Ok(service response for the body's three fields) |
| SimulationController.UnparsedBirthDateGetsOpenEndedRate | src/controllers/simulationController.ts:16-24 | a valid request whose birth date yields a NaN age is admitted and priced at 0.04, whatever the borrower's real age |
| SimulationController.AdmitBatch | src/controllers/simulationController.ts:33-55 | admitted iff the batch is valid and has at most 10 000 elements; an invalid batch is rejected with its validation errors; a valid batch over 10 000 is rejected with the limit message; an admitted batch passes the requests on in order |
| SimulationController.NonArrayOrEmptyBatchRejected | src/controllers/simulationController.ts:34-46 | a non-array or empty `simulations` is rejected by validation with the array error, before the handler's own array check |
| SimulationController.OneBadElementRejectsBatch | src/controllers/simulationController.ts:34-38 | one invalid element rejects the whole batch with the validation errors |
| SimulationController.BatchCapBoundary | src/controllers/simulationController.ts:48-53 | a valid batch of exactly 10 000 is admitted; one of 10 001 is rejected with a message containing "exceeds maximum limit" |
| SimulationController.SimulateBatch | src/controllers/simulationController.ts:33-64 | a refused batch gets BadRequest with the admission's error body, with no computation; an admitted one gets Ok with the batch runner's results (the ordered map over the requests) and both counts equal to the batch length |

## Left out

- `calculateAge` (src/utils/interestCalculator.ts:3-5) and `new Date(request.birthDate)` (src/services/simulationService.ts:32) read the wall clock and parse dates through the date library. They are replaced by the injected `ageOf` function, which yields whole years or NaN.
- The clock is read once per batch in the model, once per request in the source. Two requests of one batch with the same birth date therefore always get the same age in the model.
- IEEE-754 double behaviour is not modelled: exact `Math.pow`/`Math.round` results, Infinity and NaN. Arithmetic is exact over `real`.
- InterestCalculator.MonthlyPayment: requires a term of at least one month and, for a non-zero rate, `(1 + rate/12)^n ≠ 1`, which are the conditions for its divisions to be defined. On other inputs the source returns Infinity or NaN.
- `processingTimeMs` and `Date.now()` (src/services/simulationService.ts:52, 71-72) are wall-clock readings. The batch response carries the other three fields only.
- `async`/`Promise.all` add no concurrency here, so the batch is a sequential loop.
- Express plumbing is not modelled: status codes beyond BadRequest/Ok, the 500 `catch` paths, JSON marshalling, app setup and `/health` (src/index.ts).
- express-validator internals are not modelled. ISO 8601 date checking is the injected predicate `isIsoDate`. A field is `Missing`, a number or a string; booleans, nested objects and arrays as field values are not modelled. A numeric string that `isFloat`/`isInt` would coerce must be given as a number. A number given as a birth date is refused, where the validator would check its string form.
- SimulationRoutes.ValidateBatch: a non-array `simulations` yields only the array error. The wildcard rules on an object's keys are not modelled.
- A request whose fields are not numbers reaching the engine, for example string amounts coerced by JavaScript arithmetic, is not modelled. The controller builds requests only from validated numeric fields.
