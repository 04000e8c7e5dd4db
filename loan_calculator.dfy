/** The loan calculator: simple interest in basis points over whole months.
    Every handler takes unsigned 64-bit integers; the arithmetic in between is
    on unbounded integers and every division truncates. */
module LoanCalculator {
  import opened Results

  /** The handlers' `nat64` parameters. */
  type Nat64 = n: nat | n < 0x1_0000_0000_0000_0000

  /** 10000 basis points make 100 percent. */
  const OneHundredPercent: nat := 10000

  /** The largest interest rate the rate validation admits. */
  const MaxInterestRate: nat := 10000

  const AmountTooSmall := "Loan amount must be greater than zero."
  const AmountValid := "Loan amount is valid."
  const RateOutOfRange := "Interest rate must be between 0 and 10000 basis points."
  const RateValid := "Interest rate is valid."

  /** The record calculateLoan returns: the three inputs and the two derived payments. */
  datatype Loan = Loan(
    amount: nat,
    interestRate: nat,
    durationMonths: nat,
    monthlyPayment: nat,
    totalPayment: nat)

  /** Principal plus simple interest, the interest truncated to a whole unit:
      the result is the largest value whose basis-point scaling does not exceed
      the exact amount owed. */
  function TotalPayment(amount: nat, interestRate: nat, durationMonths: nat): (t: nat)
    ensures t * OneHundredPercent <= amount * OneHundredPercent + amount * interestRate * durationMonths
    ensures amount * OneHundredPercent + amount * interestRate * durationMonths < (t + 1) * OneHundredPercent
  {
    amount + (amount * interestRate * durationMonths) / OneHundredPercent
  }

  /** calculateMonthlyPayment: the total spread over the months, truncated.
      A zero duration makes the handler's division throw, so it is excluded. */
  function CalculateMonthlyPayment(amount: Nat64, interestRate: Nat64, durationMonths: Nat64): (r: Result<nat>)
    requires durationMonths > 0
    ensures r.Ok?
    ensures r.value * durationMonths <= TotalPayment(amount, interestRate, durationMonths)
    ensures TotalPayment(amount, interestRate, durationMonths) < (r.value + 1) * durationMonths
  {
    Ok(Quotient(TotalPayment(amount, interestRate, durationMonths), durationMonths))
  }

  /** calculateDurationMonths, as the handler computes it: the scaled total over
      amount times rate. A zero product makes the division throw, so it is excluded. */
  function CalculateDurationMonths(amount: Nat64, interestRate: Nat64, totalPayment: Nat64): (r: Result<nat>)
    requires amount * interestRate > 0
    ensures r.Ok?
    ensures r.value * (amount * interestRate) <= totalPayment * OneHundredPercent
    ensures totalPayment * OneHundredPercent < (r.value + 1) * (amount * interestRate)
  {
    Ok(Quotient(totalPayment * OneHundredPercent, amount * interestRate))
  }

  /** validateLoanAmount: the amount is rejected exactly when it is zero
      (the handler's `amount <= 0` on an unsigned value). */
  function ValidateLoanAmount(amount: Nat64): (r: Result<string>)
    ensures r.Err? <==> amount == 0
    ensures r.Err? ==> r.error == AmountTooSmall
    ensures r.Ok? ==> r.value == AmountValid
  {
    if amount <= 0 then Err(AmountTooSmall) else Ok(AmountValid)
  }

  /** validateInterestRate: the rate is rejected exactly when it exceeds
      10000 basis points; the handler's `interestRate < 0` test never holds. */
  function ValidateInterestRate(interestRate: Nat64): (r: Result<string>)
    ensures r.Err? <==> interestRate > MaxInterestRate
    ensures r.Err? ==> r.error == RateOutOfRange
    ensures r.Ok? ==> r.value == RateValid
  {
    if interestRate < 0 || interestRate > MaxInterestRate then Err(RateOutOfRange) else Ok(RateValid)
  }

  /** calculateLoan: the inputs copied unchanged and both derived payments.
      A zero duration makes the handler's division throw, so it is excluded. */
  function CalculateLoan(amount: Nat64, interestRate: Nat64, durationMonths: Nat64): (r: Result<Loan>)
    requires durationMonths > 0
    ensures r.Ok?
    ensures r.value.amount == amount
    ensures r.value.interestRate == interestRate
    ensures r.value.durationMonths == durationMonths
    ensures r.value.totalPayment == TotalPayment(amount, interestRate, durationMonths)
    ensures r.value.totalPayment >= amount
    ensures r.value.monthlyPayment * durationMonths <= r.value.totalPayment
    ensures r.value.totalPayment < (r.value.monthlyPayment + 1) * durationMonths
  {
    var total := amount + (amount * interestRate * durationMonths) / OneHundredPercent;
    var monthly := total / durationMonths;
    DivisionBounds(total, durationMonths);
    Ok(Loan(amount, interestRate, durationMonths, monthly, total))
  }

  /** Truncating division of naturals, the `/` of the handlers' `bigint`s: the
      quotient is the number of whole divisors that fit in the dividend. */
  function Quotient(n: nat, d: nat): (q: nat)
    requires d > 0
    ensures q * d <= n < (q + 1) * d
  {
    var q := n / d;
    DivisionBounds(n, d);
    q
  }

  /** Truncating division brackets its dividend between two multiples of the divisor. */
  lemma DivisionBounds(n: nat, d: nat)
    requires d > 0
    ensures (n / d) * d <= n < (n / d + 1) * d
  {
    assert n == (n / d) * d + n % d;
  }

  // ---------------------------------------------------------------------------
  // Properties of the formulas
  // ---------------------------------------------------------------------------

  /** The total is never below the principal, and equals it at a zero rate. */
  lemma TotalAtLeastPrincipal(amount: nat, interestRate: nat, durationMonths: nat)
    ensures TotalPayment(amount, interestRate, durationMonths) >= amount
    ensures interestRate == 0 ==> TotalPayment(amount, interestRate, durationMonths) == amount
    ensures durationMonths == 0 ==> TotalPayment(amount, interestRate, durationMonths) == amount
  {
    if interestRate == 0 || durationMonths == 0 {
      assert amount * interestRate * durationMonths == 0;
    }
  }

  /** At a rate the validation admits, the interest per month never exceeds
      the principal, so the total is at most the principal once per month plus once. */
  lemma TotalAtMostPrincipalPerMonth(amount: nat, interestRate: nat, durationMonths: nat)
    requires interestRate <= MaxInterestRate
    ensures TotalPayment(amount, interestRate, durationMonths) <= amount * (durationMonths + 1)
  {
    var interest := amount * interestRate * durationMonths;
    MulMonotone(amount * durationMonths, interestRate, OneHundredPercent);
    assert interest == (amount * durationMonths) * interestRate;
    assert interest <= (amount * durationMonths) * OneHundredPercent;
    DivMonotone(interest, (amount * durationMonths) * OneHundredPercent, OneHundredPercent);
    assert (amount * durationMonths) * OneHundredPercent / OneHundredPercent == amount * durationMonths;
  }

  /** Simple interest accrued month by month, scaled to basis points: the
      principal, then each month the same interest on the principal alone. */
  function ScaledOwed(amount: nat, interestRate: nat, months: nat): (s: nat)
  {
    if months == 0 then amount * OneHundredPercent
    else ScaledOwed(amount, interestRate, months - 1) + amount * interestRate
  }

  /** Accruing month by month adds up to the interest of the whole term at once. */
  lemma {:induction false} ScaledOwedClosedForm(amount: nat, interestRate: nat, months: nat)
    ensures ScaledOwed(amount, interestRate, months)
         == amount * OneHundredPercent + amount * interestRate * months
  {
    if months > 0 {
      ScaledOwedClosedForm(amount, interestRate, months - 1);
      Distribute(months - 1, 1, amount * interestRate);
      assert (amount * interestRate) * months == amount * interestRate * months;
    }
  }

  /** The handlers' total is the month-by-month accrual, truncated once at the
      end to a whole unit. */
  lemma TotalIsTruncatedAccrual(amount: nat, interestRate: nat, durationMonths: nat)
    ensures TotalPayment(amount, interestRate, durationMonths)
         == ScaledOwed(amount, interestRate, durationMonths) / OneHundredPercent
  {
    ScaledOwedClosedForm(amount, interestRate, durationMonths);
    DivAddMultiple(amount * interestRate * durationMonths, amount, OneHundredPercent);
  }

  /** The total does not decrease when the rate goes up. */
  lemma TotalMonotoneInRate(amount: nat, rate1: nat, rate2: nat, durationMonths: nat)
    requires rate1 <= rate2
    ensures TotalPayment(amount, rate1, durationMonths) <= TotalPayment(amount, rate2, durationMonths)
  {
    MulMonotone(amount * durationMonths, rate1, rate2);
    assert amount * rate1 * durationMonths == (amount * durationMonths) * rate1;
    assert amount * rate2 * durationMonths == (amount * durationMonths) * rate2;
    DivMonotone(amount * rate1 * durationMonths, amount * rate2 * durationMonths, OneHundredPercent);
  }

  /** The total does not decrease when the loan runs longer. */
  lemma TotalMonotoneInDuration(amount: nat, interestRate: nat, months1: nat, months2: nat)
    requires months1 <= months2
    ensures TotalPayment(amount, interestRate, months1) <= TotalPayment(amount, interestRate, months2)
  {
    MulMonotone(amount * interestRate, months1, months2);
    DivMonotone(amount * interestRate * months1, amount * interestRate * months2, OneHundredPercent);
  }

  /** The monthly payment does not decrease when the rate goes up. */
  lemma MonthlyPaymentMonotoneInRate(amount: Nat64, rate1: Nat64, rate2: Nat64, durationMonths: Nat64)
    requires rate1 <= rate2 && durationMonths > 0
    ensures CalculateMonthlyPayment(amount, rate1, durationMonths).value
         <= CalculateMonthlyPayment(amount, rate2, durationMonths).value
  {
    TotalMonotoneInRate(amount, rate1, rate2, durationMonths);
    DivMonotone(TotalPayment(amount, rate1, durationMonths), TotalPayment(amount, rate2, durationMonths), durationMonths);
  }

  /** Each month repays at least the principal's share of the schedule, and
      exactly that share when no interest is charged. */
  lemma MonthlyPaymentCoversPrincipal(amount: Nat64, interestRate: Nat64, durationMonths: Nat64)
    requires durationMonths > 0
    ensures CalculateMonthlyPayment(amount, interestRate, durationMonths).value >= amount / durationMonths
    ensures interestRate == 0 ==>
      CalculateMonthlyPayment(amount, interestRate, durationMonths).value == amount / durationMonths
  {
    TotalAtLeastPrincipal(amount, interestRate, durationMonths);
    DivMonotone(amount, TotalPayment(amount, interestRate, durationMonths), durationMonths);
  }

  /** calculateLoan's monthly payment is the one calculateMonthlyPayment returns. */
  lemma LoanMonthlyPaymentConsistent(amount: Nat64, interestRate: Nat64, durationMonths: Nat64)
    requires durationMonths > 0
    ensures CalculateLoan(amount, interestRate, durationMonths).value.monthlyPayment
         == CalculateMonthlyPayment(amount, interestRate, durationMonths).value
  {
  }

  /** A loan whose amount and rate pass validation owes between the principal
      and the principal once per month plus once, and its monthly payment lies
      between the principal's share and the principal plus that share. */
  lemma ValidatedLoanBounds(amount: Nat64, interestRate: Nat64, durationMonths: Nat64)
    requires ValidateLoanAmount(amount).Ok? && ValidateInterestRate(interestRate).Ok?
    requires durationMonths > 0
    ensures amount <= CalculateLoan(amount, interestRate, durationMonths).value.totalPayment
                   <= amount * (durationMonths + 1)
    ensures CalculateLoan(amount, interestRate, durationMonths).value.monthlyPayment >= amount / durationMonths
    ensures CalculateLoan(amount, interestRate, durationMonths).value.monthlyPayment <= amount + amount / durationMonths
  {
    TotalAtMostPrincipalPerMonth(amount, interestRate, durationMonths);
    MonthlyPaymentCoversPrincipal(amount, interestRate, durationMonths);
    var total := TotalPayment(amount, interestRate, durationMonths);
    DivMonotone(total, amount * (durationMonths + 1), durationMonths);
    assert amount * (durationMonths + 1) == amount + amount * durationMonths;
    DivAddMultiple(amount, amount, durationMonths);
  }

  /** The figures of a twelve-month loan of 100000 at 500 basis points a month. */
  lemma WorkedExample()
    ensures CalculateLoan(100000, 500, 12) == Ok(Loan(100000, 500, 12, 13333, 160000))
    ensures CalculateMonthlyPayment(100000, 500, 12) == Ok(13333)
  {
    assert 100000 * 500 * 12 == 600000000;
    DivUnique(600000000, OneHundredPercent, 60000);
    DivUnique(160000, 12, 13333);
  }

  /** The validation thresholds at their edges. */
  lemma ValidationExamples()
    ensures ValidateLoanAmount(0) == Err(AmountTooSmall)
    ensures ValidateLoanAmount(100) == Ok(AmountValid)
    ensures ValidateInterestRate(10000) == Ok(RateValid)
    ensures ValidateInterestRate(10001) == Err(RateOutOfRange)
  {
  }

  // ---------------------------------------------------------------------------
  // Inverting the total: calculateDurationMonths's formula and the intended one
  // ---------------------------------------------------------------------------

  /** Fed the total of a loan, calculateDurationMonths's formula never returns
      less than the loan's duration: it counts the principal as interest. */
  lemma DurationAsWrittenOverstates(amount: Nat64, interestRate: Nat64, durationMonths: Nat64)
    requires amount * interestRate > 0
    requires TotalPayment(amount, interestRate, durationMonths) < 0x1_0000_0000_0000_0000
    ensures CalculateDurationMonths(amount, interestRate, TotalPayment(amount, interestRate, durationMonths)).value
         >= durationMonths
  {
    var p := amount * interestRate;
    var total := TotalPayment(amount, interestRate, durationMonths);
    var q := CalculateDurationMonths(amount, interestRate, total).value;
    assert durationMonths * p == amount * interestRate * durationMonths;
    assert amount >= 1;
    // amount * 10000 >= 10000 outweighs the at most 9999 lost by truncating the interest
    assert total * OneHundredPercent >= durationMonths * p;
    assert total * OneHundredPercent < (q + 1) * p;
    LessAfterScaling(durationMonths, q + 1, p);
  }

  /** A twelve-month loan of 100000 at 500 basis points totals 160000, yet the
      formula of calculateDurationMonths gives 32 months for those figures. */
  lemma DurationAsWrittenCounterexample()
    ensures TotalPayment(100000, 500, 12) == 160000
    ensures CalculateDurationMonths(100000, 500, 160000) == Ok(32)
  {
    assert 100000 * 500 * 12 == 600000000;
    DivUnique(600000000, OneHundredPercent, 60000);
    DivUnique(160000 * OneHundredPercent, 100000 * 500, 32);
  }

  /** The duration formula the total evidently calls for: only the interest
      part of the total is divided by amount times rate. */
  function DurationFromTotal(amount: Nat64, interestRate: Nat64, totalPayment: Nat64): (r: Result<nat>)
    requires amount * interestRate > 0
    requires totalPayment >= amount
    ensures r.Ok?
    ensures r.value * (amount * interestRate) <= (totalPayment - amount) * OneHundredPercent
    ensures (totalPayment - amount) * OneHundredPercent < (r.value + 1) * (amount * interestRate)
  {
    Ok(Quotient((totalPayment - amount) * OneHundredPercent, amount * interestRate))
  }

  /** Fed the total of a loan, the corrected formula never overstates the
      duration, and recovers it exactly when the interest needed no truncation. */
  lemma DurationFromTotalInverts(amount: Nat64, interestRate: Nat64, durationMonths: Nat64)
    requires amount * interestRate > 0
    requires TotalPayment(amount, interestRate, durationMonths) < 0x1_0000_0000_0000_0000
    ensures DurationFromTotal(amount, interestRate, TotalPayment(amount, interestRate, durationMonths)).value
         <= durationMonths
    ensures DurationFromTotal(amount, interestRate, TotalPayment(amount, interestRate, durationMonths)).value
         == durationMonths
        <==> (amount * interestRate * durationMonths) % OneHundredPercent == 0
  {
    var p := amount * interestRate;
    var interest := amount * interestRate * durationMonths;
    var total := TotalPayment(amount, interestRate, durationMonths);
    var scaled := (total - amount) * OneHundredPercent;
    assert total - amount == interest / OneHundredPercent;
    DivisionBounds(interest, OneHundredPercent);
    assert scaled == (interest / OneHundredPercent) * OneHundredPercent;
    assert scaled <= interest;
    assert interest == p * durationMonths;
    var m := DurationFromTotal(amount, interestRate, total).value;
    assert m * p <= scaled;
    assert m * p < (durationMonths + 1) * p;
    LessAfterScaling(m, durationMonths + 1, p);
    if interest % OneHundredPercent == 0 {
      assert scaled == interest;
      assert durationMonths * p < (m + 1) * p;
      LessAfterScaling(durationMonths, m + 1, p);
    }
    if m == durationMonths {
      assert interest <= scaled;
      assert interest % OneHundredPercent == 0;
    }
  }

  /** The figures of the worked example, recovered by the corrected formula. */
  lemma DurationFromTotalExample()
    ensures DurationFromTotal(100000, 500, 160000) == Ok(12)
  {
    DivUnique((160000 - 100000) * OneHundredPercent, 100000 * 500, 12);
  }

  // ---------------------------------------------------------------------------
  // Arithmetic helpers
  // ---------------------------------------------------------------------------

  lemma MulMonotone(k: nat, x: nat, y: nat)
    requires x <= y
    ensures k * x <= k * y
  {
    assert k * y == k * x + k * (y - x);
  }

  lemma DivMonotone(x: nat, y: nat, d: nat)
    requires x <= y && d > 0
    ensures x / d <= y / d
  {
    var qx, qy := x / d, y / d;
    DivisionBounds(x, d);
    DivisionBounds(y, d);
    assert qx * d <= x;
    assert y < (qy + 1) * d;
    LessAfterScaling(qx, qy + 1, d);
  }

  /** Multiplication by a positive factor preserves strict order in reverse. */
  lemma LessAfterScaling(x: nat, y: nat, d: nat)
    requires x * d < y * d
    ensures x < y
  {
    if y <= x {
      MulMonotone(d, y, x);
    }
  }

  lemma DivAddMultiple(a: nat, b: nat, d: nat)
    requires d > 0
    ensures (a + b * d) / d == a / d + b
  {
    var q, n := a / d, a + b * d;
    DivisionBounds(a, d);
    Distribute(q, b, d);
    Distribute(q + 1, b, d);
    DivUnique(n, d, q + b);
  }

  lemma Distribute(x: nat, y: nat, d: nat)
    ensures (x + y) * d == x * d + y * d
  {
  }

  lemma DivUnique(n: nat, d: nat, q: nat)
    requires d > 0 && q * d <= n < (q + 1) * d
    ensures n / d == q
  {
    DivisionBounds(n, d);
    LessAfterScaling(n / d, q + 1, d);
    LessAfterScaling(q, n / d + 1, d);
  }
}
