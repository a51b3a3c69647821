/**
 The simulation service: one loan request in, the request echoed together
 with its figures out; and the batch runner, which evaluates a sequence of
 requests in chunks of 100 and appends each chunk's results in order.

 The borrower's age is injected as `ageOf`, which stands for computing the
 whole years elapsed between the request's birth date and "now", or NaN when
 the birth date does not parse. One `ageOf` serves a whole batch, so the
 clock is read once per batch, where the source reads it once per request.
 */
module SimulationService {
  import opened InterestCalculator

  datatype SimulationRequest = SimulationRequest(
    loanAmount: real,
    birthDate: string,
    termInMonths: int)

  datatype SimulationResponse = SimulationResponse(
    loanAmount: real,
    birthDate: string,
    termInMonths: int,
    monthlyPayment: real,
    totalPayable: real,
    totalInterest: real,
    interestRate: real)

  /** The batch response without its wall-clock `processingTimeMs`. */
  datatype BatchSimulationResponse = BatchSimulationResponse(
    totalSimulations: nat,
    processedSimulations: nat,
    results: seq<SimulationResponse>)

  /** Number of requests evaluated together before the next chunk starts. */
  const ChunkSize: nat := 100

  function Min(a: int, b: int): int
  {
    if a <= b then a else b
  }

  /** The engine's precondition on every request: a term of at least one month. */
  predicate AllComputable(requests: seq<SimulationRequest>)
  {
    forall j :: 0 <= j < |requests| ==> requests[j].termInMonths >= 1
  }

  /** One simulation: the request's fields echoed, followed by the figures of
      the loan simulation for the borrower's age. */
  function SimulateLoan(request: SimulationRequest, ageOf: string -> Age): (response: SimulationResponse)
    requires request.termInMonths >= 1
    ensures response.loanAmount == request.loanAmount
    ensures response.birthDate == request.birthDate
    ensures response.termInMonths == request.termInMonths
    ensures var result := LoanSimulation(request.loanAmount, ageOf(request.birthDate), request.termInMonths);
            && response.monthlyPayment == result.monthlyPayment
            && response.totalPayable == result.totalPayable
            && response.totalInterest == result.totalInterest
            && response.interestRate == result.interestRate
    ensures response.interestRate == PolicyRate(ageOf(request.birthDate))
    ensures WholeCents(response.monthlyPayment) && WholeCents(response.totalPayable)
         && WholeCents(response.totalInterest)
  {
    var result := LoanSimulation(request.loanAmount, ageOf(request.birthDate), request.termInMonths);
    SimulationResponse(
      request.loanAmount, request.birthDate, request.termInMonths,
      result.monthlyPayment, result.totalPayable, result.totalInterest, result.interestRate)
  }

  /** The plain, unchunked map of `SimulateLoan` over a sequence of requests. */
  function SimulateAll(requests: seq<SimulationRequest>, ageOf: string -> Age): (responses: seq<SimulationResponse>)
    requires AllComputable(requests)
    ensures |responses| == |requests|
    ensures forall j :: 0 <= j < |requests| ==> responses[j] == SimulateLoan(requests[j], ageOf)
  {
    if requests == [] then []
    else [SimulateLoan(requests[0], ageOf)] + SimulateAll(requests[1..], ageOf)
  }

  /** Mapping distributes over concatenation. */
  lemma SimulateAllAppend(a: seq<SimulationRequest>, b: seq<SimulationRequest>, ageOf: string -> Age)
    requires AllComputable(a) && AllComputable(b)
    ensures AllComputable(a + b)
    ensures SimulateAll(a + b, ageOf) == SimulateAll(a, ageOf) + SimulateAll(b, ageOf)
  {
    assert forall j :: 0 <= j < |a + b| ==> (a + b)[j] == if j < |a| then a[j] else b[j - |a|];
  }

  /** The chunks the batch runner slices its input into: consecutive slices
      of `ChunkSize` elements, the last one possibly shorter. */
  function Chunks<T>(s: seq<T>): seq<seq<T>>
    decreases |s|
  {
    if |s| == 0 then []
    else
      var end := Min(ChunkSize, |s|);
      [s[..end]] + Chunks(s[end..])
  }

  /** Concatenation of a sequence of chunks. */
  function Flatten<T>(chunks: seq<seq<T>>): seq<T>
  {
    if chunks == [] then [] else chunks[0] + Flatten(chunks[1..])
  }

  /** The slices `s[i .. min(i + 100, |s|)]` for `i = 0, 100, 200, …`
      partition the input: they are non-empty, at most 100 long, start at
      multiples of 100, and concatenate back to the input. */
  lemma ChunksPartition<T>(s: seq<T>)
    ensures Flatten(Chunks(s)) == s
    ensures |Chunks(s)| == (|s| + ChunkSize - 1) / ChunkSize
    ensures forall c :: 0 <= c < |Chunks(s)| ==>
              && c * ChunkSize < |s|
              && Chunks(s)[c] == s[c * ChunkSize .. Min(c * ChunkSize + ChunkSize, |s|)]
              && 1 <= |Chunks(s)[c]| <= ChunkSize
  {
    ChunksFlatten(s);
    ChunksCount(s);
    forall c | 0 <= c < |Chunks(s)|
      ensures c * ChunkSize < |s|
      ensures Chunks(s)[c] == s[c * ChunkSize .. Min(c * ChunkSize + ChunkSize, |s|)]
    {
      ChunkAt(s, c);
    }
  }

  /** The chunks concatenate back to the input. */
  lemma {:induction false} ChunksFlatten<T>(s: seq<T>)
    ensures Flatten(Chunks(s)) == s
    decreases |s|
  {
    if |s| > 0 {
      var end := Min(ChunkSize, |s|);
      ChunksFlatten(s[end..]);
      var cs := Chunks(s);
      assert cs[1..] == Chunks(s[end..]);
      assert s[..end] + s[end..] == s;
    }
  }

  /** There are `ceil(|s| / 100)` chunks, each holding 1 to 100 elements. */
  lemma {:induction false} ChunksCount<T>(s: seq<T>)
    ensures |Chunks(s)| == (|s| + ChunkSize - 1) / ChunkSize
    ensures forall c :: 0 <= c < |Chunks(s)| ==> 1 <= |Chunks(s)[c]| <= ChunkSize
    decreases |s|
  {
    if |s| > 0 {
      var end := Min(ChunkSize, |s|);
      ChunksCount(s[end..]);
      var cs := Chunks(s);
      assert cs[1..] == Chunks(s[end..]);
      assert forall c :: 1 <= c < |cs| ==> cs[c] == Chunks(s[end..])[c - 1];
      if |s| > ChunkSize {
        assert (|s| + 99) / 100 == (|s| - 100 + 99) / 100 + 1;
      }
    }
  }

  /** Chunk `c` is the slice starting at `100 c`. */
  lemma {:induction false} ChunkAt<T>(s: seq<T>, c: nat)
    requires c < |Chunks(s)|
    ensures c * ChunkSize < |s|
    ensures Chunks(s)[c] == s[c * ChunkSize .. Min(c * ChunkSize + ChunkSize, |s|)]
    decreases c
  {
    var end := Min(ChunkSize, |s|);
    var cs := Chunks(s);
    if c > 0 {
      var rest := s[end..];
      assert cs[c] == Chunks(rest)[c - 1];
      ChunkAt(rest, c - 1);
      assert end == 100;
      var k := (c - 1) * 100;
      assert c * 100 == k + 100;
      var hi := Min(k + 100, |rest|);
      assert hi + 100 == Min(k + 200, |s|);
      SliceOfSuffix(s, 100, k, hi);
    }
  }

  /** A slice of a suffix is a slice of the whole. */
  lemma SliceOfSuffix<T>(s: seq<T>, d: nat, lo: nat, hi: nat)
    requires d <= |s| && lo <= hi <= |s| - d
    ensures s[d..][lo..hi] == s[d + lo .. d + hi]
  {
  }

  /** Appending the results of the chunk `s[i..end]` to those of the
      prefix `s[..i]` gives the results of the prefix `s[..end]`. */
  lemma ChunkStep(s: seq<SimulationRequest>, i: nat, end: nat, ageOf: string -> Age)
    requires AllComputable(s) && i <= end <= |s|
    ensures AllComputable(s[..i]) && AllComputable(s[i..end]) && AllComputable(s[..end])
    ensures SimulateAll(s[..i], ageOf) + SimulateAll(s[i..end], ageOf) == SimulateAll(s[..end], ageOf)
  {
    assert s[..i] + s[i..end] == s[..end];
    SimulateAllAppend(s[..i], s[i..end], ageOf);
  }

  /** The batch runner. Each chunk `simulations[i .. min(i + 100, n)]`,
      which is chunk `c = i / 100` of `Chunks`, is mapped through
      `SimulateLoan` and its results appended in order; the output equals
      the plain map over the whole input. */
  method SimulateBatch(simulations: seq<SimulationRequest>, ageOf: string -> Age)
    returns (response: BatchSimulationResponse)
    requires AllComputable(simulations)
    ensures response.results == SimulateAll(simulations, ageOf)
    ensures forall j :: 0 <= j < |simulations| ==> response.results[j] == SimulateLoan(simulations[j], ageOf)
    ensures response.totalSimulations == |simulations|
    ensures response.processedSimulations == |simulations|
  {
    var results: seq<SimulationResponse> := [];
    var i := 0;
    ghost var c := 0;
    ChunksCount(simulations);
    while i < |simulations|
      invariant 0 <= i && i == c * ChunkSize
      invariant results == SimulateAll(simulations[..Min(i, |simulations|)], ageOf)
      invariant i < |simulations| ==> c < |Chunks(simulations)|
    {
      var end := Min(i + ChunkSize, |simulations|);
      var chunk := simulations[i..end];
      ChunkAt(simulations, c);
      assert chunk == Chunks(simulations)[c];
      ChunkStep(simulations, i, end, ageOf);
      var chunkResults := SimulateAll(chunk, ageOf);
      results := results + chunkResults;
      i := i + ChunkSize;
      c := c + 1;
    }
    assert simulations[..Min(i, |simulations|)] == simulations;
    response := BatchSimulationResponse(|simulations|, |results|, results);
  }
}
