/**
 The loan arithmetic: the age-bracket rate policy and the amortization engine
 (fixed monthly payment, totals, rounding to cents).

 Numbers are modelled as exact `real`s, an idealisation of the double
 arithmetic of the TypeScript implementation; `Pow` stands for `Math.pow` with a natural
 exponent and `Round2` for `Math.round(x * 100) / 100`.
 */
module InterestCalculator {

  /* ---------------------------------------------------------------------- */
  /* Rate policy                                                             */
  /* ---------------------------------------------------------------------- */

  /** The annual rate applied to a borrower of the given age in whole years. */
  function AnnualInterestRate(age: int): (rate: real)
    ensures rate == 0.05 <==> age <= 25
    ensures rate == 0.03 <==> 26 <= age <= 40
    ensures rate == 0.02 <==> 41 <= age <= 60
    ensures rate == 0.04 <==> 61 <= age
    ensures rate > 0.0
  {
    if age <= 25 then 0.05
    else if age <= 40 then 0.03
    else if age <= 60 then 0.02
    else 0.04
  }

  /** A borrower's age as a JavaScript number: whole years, or NaN, which
      `differenceInYears` returns when the birth date does not parse to a
      valid `Date` (an ISO 8601 week date such as "2000-W01", say). */
  datatype Age = Years(n: int) | NotANumber

  /** JavaScript's `age <= bound`, which is false when `age` is NaN. */
  predicate AtMost(age: Age, bound: int)
  {
    age.Years? && age.n <= bound
  }

  /** `getAnnualInterestRate` on a number age: the three comparisons in
      order, so a NaN age fails each of them and gets the open-ended rate. */
  function PolicyRate(age: Age): (rate: real)
    ensures age.Years? ==> rate == AnnualInterestRate(age.n)
    ensures age.NotANumber? ==> rate == OpenEndedRate
    ensures rate > 0.0
  {
    if AtMost(age, 25) then 0.05
    else if AtMost(age, 40) then 0.03
    else if AtMost(age, 60) then 0.02
    else 0.04
  }

  /** One row of the rate table: the ages up to `upTo` (inclusive) that no
      earlier row claims. */
  datatype Bracket = Bracket(upTo: int, rate: real)

  /** The rate table as an ordered list of closed brackets; ages above the
      last bound fall into the open-ended bracket. */
  const RateTable: seq<Bracket> := [Bracket(25, 0.05), Bracket(40, 0.03), Bracket(60, 0.02)]
  const OpenEndedRate: real := 0.04

  /** Linear scan of a bracket table: the rate of the first row whose bound
      is not below `age`. */
  function TableRate(table: seq<Bracket>, age: int): real
  {
    if table == [] then OpenEndedRate
    else if age <= table[0].upTo then table[0].rate
    else TableRate(table[1..], age)
  }

  /** Bracket `k` (with `k == |RateTable|` the open-ended one) applies to `age`. */
  predicate InBracket(k: nat, age: int)
  {
    && k <= |RateTable|
    && (k == 0 || RateTable[k - 1].upTo < age)
    && (k == |RateTable| || age <= RateTable[k].upTo)
  }

  /** The rate function is the table lookup. */
  lemma RateMatchesTable(age: int)
    ensures AnnualInterestRate(age) == TableRate(RateTable, age)
  {
    var t1 := RateTable[1..];
    var t2 := t1[1..];
    var t3 := t2[1..];
    assert t1 == [Bracket(40, 0.03), Bracket(60, 0.02)];
    assert t2 == [Bracket(60, 0.02)];
    assert t3 == [];
    if age > 25 {
      assert TableRate(RateTable, age) == TableRate(t1, age);
      if age > 40 {
        assert TableRate(t1, age) == TableRate(t2, age);
        if age > 60 {
          assert TableRate(t2, age) == TableRate(t3, age);
        }
      }
    }
  }

  /** The brackets cover every age with no gap and no overlap, and the rate
      is that of the bracket the age falls in. */
  lemma BracketsPartitionAges(age: int)
    ensures exists k: nat :: InBracket(k, age)
    ensures forall k: nat, k': nat :: InBracket(k, age) && InBracket(k', age) ==> k == k'
    ensures forall k: nat :: InBracket(k, age) ==>
              AnnualInterestRate(age) == (if k < |RateTable| then RateTable[k].rate else OpenEndedRate)
  {
    RateMatchesTable(age);
    if age <= 25 {
      assert InBracket(0, age);
    } else if age <= 40 {
      assert InBracket(1, age);
    } else if age <= 60 {
      assert InBracket(2, age);
    } else {
      assert InBracket(3, age);
    }
  }

  /* ---------------------------------------------------------------------- */
  /* Real arithmetic helpers                                                 */
  /* ---------------------------------------------------------------------- */

  /** `Math.pow(x, n)` for a natural exponent. */
  function Pow(x: real, n: nat): real
  {
    if n == 0 then 1.0 else x * Pow(x, n - 1)
  }

  /** A growth factor above one compounds to more than one. */
  lemma {:induction false} PowAboveOne(q: real, n: nat)
    requires q > 1.0 && n >= 1
    ensures Pow(q, n) > 1.0
  {
    if n > 1 {
      PowAboveOne(q, n - 1);
      var prev := Pow(q, n - 1);
      assert q * prev > 1.0 * prev by {
        assert (q - 1.0) * prev > 0.0;
      }
    }
  }

  /** The amount is a whole number of cents. */
  predicate WholeCents(x: real)
  {
    (x * 100.0).Floor as real == x * 100.0
  }

  /** `Math.round(x * 100) / 100`: the nearest cent, halves rounded up. */
  function Round2(x: real): (r: real)
    ensures WholeCents(r)
    ensures x - 0.005 < r <= x + 0.005
  {
    ((x * 100.0 + 0.5).Floor as real) / 100.0
  }

  /** `Round2` picks the only whole-cent amount in the half-open window
      (x - 0.005, x + 0.005] around its argument. */
  lemma Round2Unique(x: real, c: real)
    requires WholeCents(c)
    requires x - 0.005 < c <= x + 0.005
    ensures c == Round2(x)
  {
    var m := (c * 100.0).Floor;
    assert m as real <= x * 100.0 + 0.5 < m as real + 1.0;
    assert (x * 100.0 + 0.5).Floor == m;
  }

  /** Rounding to cents never reverses the order of two amounts. */
  lemma Round2Monotone(x: real, y: real)
    ensures x <= y ==> Round2(x) <= Round2(y)
  {
    if x <= y {
      var a := x * 100.0 + 0.5;
      var b := y * 100.0 + 0.5;
      assert a <= b;
      assert a.Floor <= b.Floor;
    }
  }

  /** Shifting by a whole-cent amount commutes with rounding. */
  lemma Round2Shift(x: real, c: real)
    requires WholeCents(c)
    ensures Round2(x - c) == Round2(x) - c
  {
    var r := Round2(x);
    assert ((r - c) * 100.0).Floor == (r * 100.0).Floor - (c * 100.0).Floor;
    Round2Unique(x - c, r - c);
  }

  /* ---------------------------------------------------------------------- */
  /* Amortization engine                                                     */
  /* ---------------------------------------------------------------------- */

  /** The annuity formula's divisions are defined: a term of at least one
      month, and for a non-zero rate a growth factor `(1 + r)^n` other than 1. */
  predicate PaymentDefined(annualRate: real, months: nat)
  {
    months >= 1 && (annualRate == 0.0 || Pow(1.0 + annualRate / 12.0, months) != 1.0)
  }

  /** The fixed monthly payment: straight-line for a zero rate, the standard
      annuity formula with monthly rate `annualRate / 12` otherwise. Either
      way it is a payment that clears the loan at the end of the term. */
  function MonthlyPayment(principal: real, annualRate: real, months: nat): (payment: real)
    requires PaymentDefined(annualRate, months)
    ensures annualRate == 0.0 ==> payment * months as real == principal
    ensures Balance(principal, annualRate / 12.0, payment, months) == 0.0
  {
    if annualRate == 0.0 then
      var payment := principal / months as real;
      BalanceZeroRate(principal, payment, months);
      StraightLineUnique(principal, months as real, payment);
      payment
    else
      var monthlyRate := annualRate / 12.0;
      var growth := Pow(1.0 + monthlyRate, months);
      var payment := Annuity(principal, monthlyRate, growth);
      BalanceClosedForm(principal, monthlyRate, payment, months);
      AnnuityUnique(principal, monthlyRate, growth, payment, Balance(principal, monthlyRate, payment, months));
      payment
  }

  /** The annuity formula `P * (r * g) / (g - 1)` for the growth factor
      `g = (1 + r)^n` of the whole term. */
  function Annuity(principal: real, monthlyRate: real, growth: real): real
    requires growth != 1.0
  {
    principal * (monthlyRate * growth) / (growth - 1.0)
  }

  /** What the borrower pays over the whole term. */
  function TotalPayable(monthlyPayment: real, months: nat): real
  {
    monthlyPayment * months as real
  }

  /** What the borrower pays on top of the principal. */
  function TotalInterest(monthlyPayment: real, months: nat, principal: real): (interest: real)
    ensures principal + interest == TotalPayable(monthlyPayment, months)
    ensures interest > 0.0 <==> TotalPayable(monthlyPayment, months) > principal
  {
    TotalPayable(monthlyPayment, months) - principal
  }

  /** Outstanding balance after `k` monthly payments of `payment`, interest
      compounding at `monthlyRate` before each payment. */
  function Balance(principal: real, monthlyRate: real, payment: real, k: nat): real
  {
    if k == 0 then principal
    else Balance(principal, monthlyRate, payment, k - 1) * (1.0 + monthlyRate) - payment
  }

  /** The closed form of the balance, scaled by the monthly rate: `b` is
      the balance that remains when the principal has grown by the factor `g`
      and the payments made so far have grown to `payment (g - 1) / r`. */
  predicate ClosedForm(principal: real, r: real, payment: real, b: real, g: real)
  {
    r * b == principal * r * g - payment * (g - 1.0)
  }

  /** The balance after `k` payments is in closed form, with growth factor
      `(1 + r)^k`. */
  lemma {:induction false} BalanceClosedForm(principal: real, r: real, payment: real, k: nat)
    ensures ClosedForm(principal, r, payment, Balance(principal, r, payment, k), Pow(1.0 + r, k))
  {
    if k > 0 {
      BalanceClosedForm(principal, r, payment, k - 1);
      ClosedFormStep(principal, r, payment, Balance(principal, r, payment, k - 1), Pow(1.0 + r, k - 1));
    }
  }

  /** One month of `BalanceClosedForm`: compounding then paying keeps the
      closed form. */
  lemma ClosedFormStep(principal: real, r: real, payment: real, b: real, g: real)
    requires ClosedForm(principal, r, payment, b, g)
    ensures ClosedForm(principal, r, payment, b * (1.0 + r) - payment, (1.0 + r) * g)
  {
    var b', g' := b * (1.0 + r) - payment, (1.0 + r) * g;
    calc {
      r * b';
      (1.0 + r) * (r * b) - r * payment;
      (1.0 + r) * (principal * r * g - payment * (g - 1.0)) - r * payment;
      principal * r * g' - payment * (g' - 1.0);
    }
  }

  /** Without interest the balance falls by one payment per month. */
  lemma {:induction false} BalanceZeroRate(principal: real, payment: real, k: nat)
    ensures Balance(principal, 0.0, payment, k) == principal - k as real * payment
  {
    if k > 0 {
      BalanceZeroRate(principal, payment, k - 1);
    }
  }

  /** The payment is exactly the one that clears the loan: after `months`
      payments of `x` the balance is zero if and only if `x` is the monthly
      payment. */
  lemma PaymentAmortizes(principal: real, annualRate: real, months: nat, x: real)
    requires PaymentDefined(annualRate, months)
    ensures Balance(principal, annualRate / 12.0, x, months) == 0.0
        <==> x == MonthlyPayment(principal, annualRate, months)
  {
    if annualRate == 0.0 {
      BalanceZeroRate(principal, x, months);
      StraightLineUnique(principal, months as real, x);
    } else {
      var r := annualRate / 12.0;
      var g := Pow(1.0 + r, months);
      BalanceClosedForm(principal, r, x, months);
      AnnuityUnique(principal, r, g, x, Balance(principal, r, x, months));
      assert MonthlyPayment(principal, annualRate, months) == Annuity(principal, r, g);
    }
  }

  /** Straight-line repayment: `n` payments of `x` clear `principal` only
      when `x` is `principal / n`. */
  lemma StraightLineUnique(principal: real, n: real, x: real)
    requires n > 0.0
    ensures principal - n * x == 0.0 <==> x == principal / n
  {
  }

  /** A balance `b` in the closed form of `BalanceClosedForm` vanishes only
      for the annuity payment. */
  lemma AnnuityUnique(principal: real, r: real, g: real, x: real, b: real)
    requires r != 0.0 && g != 1.0
    requires ClosedForm(principal, r, x, b, g)
    ensures b == 0.0 <==> x == Annuity(principal, r, g)
  {
    var d := g - 1.0;
    assert b == 0.0 <==> r * b == 0.0;
    assert r * b == 0.0 <==> x * d == principal * (r * g);
    SolveLinear(principal * (r * g), d, x);
  }

  /** `x d = a` has the one solution `a / d`. */
  lemma SolveLinear(a: real, d: real, x: real)
    requires d != 0.0
    ensures x * d == a <==> x == a / d
  {
  }

  /** With a zero rate the payments add up to the principal and no interest
      is charged. */
  lemma ZeroRateStraightLine(principal: real, months: nat)
    requires months >= 1
    ensures PaymentDefined(0.0, months)
    ensures MonthlyPayment(principal, 0.0, months) * months as real == principal
    ensures TotalInterest(MonthlyPayment(principal, 0.0, months), months, principal) == 0.0
  {
  }

  /** Multiplying by a positive factor keeps a strict order. */
  lemma MulStrict(c: real, a: real, b: real)
    requires c > 0.0 && a < b
    ensures c * a < c * b
  {
    assert c * b - c * a == c * (b - a);
  }

  /** `(1 + r)^n - 1 < n r (1 + r)^n` for a positive monthly rate. */
  lemma {:induction false} AnnuityBound(r: real, n: nat)
    requires r > 0.0 && n >= 1
    ensures Pow(1.0 + r, n) - 1.0 < n as real * r * Pow(1.0 + r, n)
  {
    var q := 1.0 + r;
    if n == 1 {
      assert Pow(q, 1) == q;
      MulStrict(r, 1.0, q);
    } else {
      AnnuityBound(r, n - 1);
      PowAboveOne(q, n);
      var g := Pow(q, n - 1);
      assert Pow(q, n) == q * g;
      AnnuityBoundStep(r, g, (n - 1) as real);
    }
  }

  /** One month more in `AnnuityBound`: from the bound for growth `g` to the
      bound for growth `(1 + r) g`. */
  lemma AnnuityBoundStep(r: real, g: real, m: real)
    requires r > 0.0 && (1.0 + r) * g > 1.0
    requires g - 1.0 < m * r * g
    ensures (1.0 + r) * g - 1.0 < (m + 1.0) * r * ((1.0 + r) * g)
  {
    var q := 1.0 + r;
    var big := q * g;
    assert big - 1.0 == q * (g - 1.0) + r;
    MulStrict(q, g - 1.0, m * r * g);
    assert q * (m * r * g) == m * r * big;
    MulStrict(r, 1.0, big);
    assert m * r * big + r * big == (m + 1.0) * r * big;
  }

  /** The annuity payment for a growth factor `g` meeting the bound of
      `AnnuityBound` is positive and repays more than the principal. */
  lemma AnnuityExceedsPrincipal(principal: real, r: real, g: real, n: real)
    requires r > 0.0 && g > 1.0 && g - 1.0 < n * r * g
    ensures principal > 0.0 ==> Annuity(principal, r, g) > 0.0
    ensures principal > 0.0 ==> Annuity(principal, r, g) * n > principal
  {
    if principal > 0.0 {
      var d := g - 1.0;
      var p := Annuity(principal, r, g);
      assert p * d == principal * (r * g);
      assert r * g > 0.0;
      assert p > 0.0;
      assert (p * n) * d == principal * (n * r * g);
      assert principal * (n * r * g) > principal * d;
      assert (p * n) * d > principal * d;
    }
  }

  /** With a positive rate the payment is defined and positive, and the
      payments add up to more than the principal: interest is charged. */
  lemma PositiveRateCostsInterest(principal: real, annualRate: real, months: nat)
    requires annualRate > 0.0 && months >= 1
    ensures PaymentDefined(annualRate, months)
    ensures principal > 0.0 ==> MonthlyPayment(principal, annualRate, months) > 0.0
    ensures principal > 0.0 ==> MonthlyPayment(principal, annualRate, months) * months as real > principal
    ensures principal > 0.0 ==> TotalInterest(MonthlyPayment(principal, annualRate, months), months, principal) > 0.0
  {
    var r := annualRate / 12.0;
    var g := Pow(1.0 + r, months);
    var n := months as real;
    PowAboveOne(1.0 + r, months);
    AnnuityBound(r, months);
    assert MonthlyPayment(principal, annualRate, months) == Annuity(principal, r, g);
    AnnuityExceedsPrincipal(principal, r, g, n);
  }

  /* ---------------------------------------------------------------------- */
  /* Loan simulation                                                         */
  /* ---------------------------------------------------------------------- */

  /** The figures reported for one loan. */
  datatype SimulationResult = SimulationResult(
    monthlyPayment: real,
    totalPayable: real,
    totalInterest: real,
    interestRate: real)

  /** One loan simulation for a borrower of the given age. The three monetary
      figures are rounded to cents only at the end; both totals are derived
      from the unrounded payment. */
  function LoanSimulation(loanAmount: real, age: Age, termInMonths: nat): (res: SimulationResult)
    requires termInMonths >= 1
    ensures res.interestRate == PolicyRate(age)
    ensures PaymentDefined(res.interestRate, termInMonths)
    ensures var raw := MonthlyPayment(loanAmount, res.interestRate, termInMonths);
            && res.monthlyPayment == Round2(raw)
            && res.totalPayable == Round2(TotalPayable(raw, termInMonths))
            && res.totalInterest == Round2(TotalInterest(raw, termInMonths, loanAmount))
    ensures WholeCents(res.monthlyPayment) && WholeCents(res.totalPayable) && WholeCents(res.totalInterest)
    ensures var raw := MonthlyPayment(loanAmount, res.interestRate, termInMonths);
            && raw - 0.005 < res.monthlyPayment <= raw + 0.005
            && TotalPayable(raw, termInMonths) - 0.005 < res.totalPayable <= TotalPayable(raw, termInMonths) + 0.005
    ensures loanAmount > 0.0 ==>
              && res.monthlyPayment >= 0.0
              && res.totalInterest >= 0.0
              && res.totalPayable >= Round2(loanAmount)
    ensures WholeCents(loanAmount) ==> res.totalPayable - res.totalInterest == loanAmount
  {
    var annualRate := PolicyRate(age);
    PositiveRateCostsInterest(loanAmount, annualRate, termInMonths);
    var monthlyPayment := MonthlyPayment(loanAmount, annualRate, termInMonths);
    var totalPayable := TotalPayable(monthlyPayment, termInMonths);
    var totalInterest := TotalInterest(monthlyPayment, termInMonths, loanAmount);
    RoundedFigures(loanAmount, monthlyPayment, totalPayable);
    SimulationResult(Round2(monthlyPayment), Round2(totalPayable), Round2(totalInterest), annualRate)
  }

  /** Rounding facts about the three figures, for a payment that is positive
      and repays more than the principal when the principal is positive. */
  lemma RoundedFigures(principal: real, payment: real, totalPayable: real)
    requires principal > 0.0 ==> payment > 0.0 && totalPayable > principal
    ensures principal > 0.0 ==>
              && Round2(payment) >= 0.0
              && Round2(totalPayable - principal) >= 0.0
              && Round2(totalPayable) >= Round2(principal)
    ensures WholeCents(principal) ==> Round2(totalPayable) - Round2(totalPayable - principal) == principal
  {
    Round2Monotone(principal, totalPayable);
    RoundedTotalsDifferByPrincipal(totalPayable, principal);
    Round2Monotone(0.0, payment);
    Round2Monotone(0.0, totalPayable - principal);
    assert Round2(0.0) == 0.0;
  }

  /** For a whole-cent principal, rounding keeps total payable minus total
      interest equal to the principal. */
  lemma RoundedTotalsDifferByPrincipal(totalPayable: real, principal: real)
    ensures WholeCents(principal) ==> Round2(totalPayable) - Round2(totalPayable - principal) == principal
  {
    if WholeCents(principal) {
      Round2Shift(totalPayable, principal);
    }
  }

  /** Reference figures: a 12 000 loan over 12 months without interest pays
      1 000 a month; 10 000 at 5% over 12 months pays 856.07 a month. */
  lemma ReferenceFigures()
    ensures MonthlyPayment(12000.0, 0.0, 12) == 1000.0
    ensures PaymentDefined(0.05, 12)
    ensures Round2(MonthlyPayment(10000.0, 0.05, 12)) == 856.07
  {
    PositiveRateCostsInterest(10000.0, 0.05, 12);
    var p := MonthlyPayment(10000.0, 0.05, 12);
    assert 856.07 - 0.005 < p <= 856.07 + 0.005 by {
      var g := Pow(1.0 + 0.05 / 12.0, 12);
      assert g == Pow(241.0 / 240.0, 12);
    }
    Round2Unique(p, 856.07);
  }
}
