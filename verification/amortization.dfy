/**
 * The arithmetic of the loan calculator: the principal clamp, the monthly
 * rate, the term, the EMI (equal monthly installment) formula, the running
 * balance that the schedule loop carries from month to month, the rows it
 * emits and the column totals of the summary.
 *
 * Every quantity is an exact `real`; the program computes with binary floats.
 */
module Amortization {
  import opened Rounding

  /** The flat monthly insurance surcharge added to the EMI when insurance is on. */
  const InsuranceFee: int := 500

  /** One line of the amortization table, as emitted (every money column rounded to 2 places). */
  datatype Row = Row(month: nat, emi: real, interest: real, principal: real, balance: real)

  /** What the summary panel shows. */
  datatype Summary = Summary(principal: int, monthlyEmi: real, totalInterest: real, totalPayment: real)

  // ---------------------------------------------------------------------------
  // Inputs turned into loan parameters
  // ---------------------------------------------------------------------------

  /** `max(loan_amount - deposit, 0)`: a deposit covering the loan leaves nothing to borrow. */
  function Principal(loanAmount: int, deposit: int): (p: int)
    ensures p >= 0 && p >= loanAmount - deposit
    ensures p == 0 || p == loanAmount - deposit
  {
    if loanAmount - deposit > 0 then loanAmount - deposit else 0
  }

  /** The annual percentage rate turned into a monthly fraction. */
  function MonthlyRate(interestRate: real): (r: real)
    ensures r * 1200.0 == interestRate
  {
    interestRate / 100.0 / 12.0
  }

  /** The number of monthly installments in a term of whole years. */
  function Term(years: nat): (n: nat)
    ensures n % 12 == 0 && n / 12 == years
  {
    years * 12
  }

  /** `x ** k` for a whole exponent. */
  function Pow(x: real, k: nat): real
  {
    if k == 0 then 1.0 else x * Pow(x, k - 1)
  }

  lemma PowSucc(x: real, k: nat)
    ensures Pow(x, k + 1) == x * Pow(x, k)
  {
  }

  /** A base of at least 1 gives a power of at least 1, and a base above 1 a power above 1. */
  lemma {:induction false} PowAtLeastOne(x: real, k: nat)
    requires x >= 1.0
    ensures Pow(x, k) >= 1.0
    ensures x > 1.0 && k >= 1 ==> Pow(x, k) > 1.0
  {
    if k > 0 {
      var j: nat := k - 1;
      PowAtLeastOne(x, j);
      PowSucc(x, j);
      MulMonotone(1.0, x, Pow(x, j));
    }
  }

  /** Multiplying both sides by a non-negative factor keeps an inequality. */
  lemma MulMonotone(a: real, b: real, c: real)
    requires a <= b && c >= 0.0
    ensures a * c <= b * c
  {
  }

  lemma {:induction false} PowMonotone(x: real, j: nat, k: nat)
    requires x >= 1.0 && j <= k
    ensures Pow(x, j) <= Pow(x, k)
  {
    if j < k {
      var i: nat := k - 1;
      PowMonotone(x, j, i);
      PowAtLeastOne(x, i);
      PowSucc(x, i);
      MulMonotone(1.0, x, Pow(x, i));
    }
  }

  // ---------------------------------------------------------------------------
  // The EMI
  // ---------------------------------------------------------------------------

  /**
   * The equal monthly installment for `p` borrowed at monthly rate `rate` over
   * `n` months: the annuity formula, or `p / n` when the rate is zero.
   */
  function Emi(p: real, rate: real, n: nat): real
    requires rate >= 0.0 && n >= 1
  {
    if rate == 0.0 then
      p / n as real
    else
      var growth := Pow(1.0 + rate, n);
      PowAtLeastOne(1.0 + rate, n);
      p * rate * growth / (growth - 1.0)
  }

  /**
   * The EMI is never negative and always covers the first month's interest,
   * strictly so when something is borrowed at a positive rate; at a zero rate
   * `n` installments repay exactly the principal.
   */
  lemma EmiCoversInterest(p: real, rate: real, n: nat)
    requires p >= 0.0 && rate >= 0.0 && n >= 1
    ensures var e := Emi(p, rate, n);
      && e >= 0.0
      && e >= p * rate
      && (p > 0.0 && rate > 0.0 ==> e > p * rate)
      && (rate == 0.0 ==> e * n as real == p)
  {
    if rate > 0.0 {
      PowAtLeastOne(1.0 + rate, n);
      AnnuityExceedsInterest(p, rate, Pow(1.0 + rate, n));
      MulMonotone(0.0, p, rate);
    }
  }

  /** The annuity payment pays the first month's interest and more. */
  lemma AnnuityExceedsInterest(p: real, rate: real, growth: real)
    requires p >= 0.0 && rate > 0.0 && growth > 1.0
    ensures p * rate * growth / (growth - 1.0) >= p * rate
    ensures p > 0.0 ==> p * rate * growth / (growth - 1.0) > p * rate
  {
    var d := growth - 1.0;
    var c := p * rate / d;
    assert p * rate * growth / d == c * growth;
    assert p * rate == c * d;
    assert c * growth - c * d == c;
    assert c >= 0.0;
    assert p > 0.0 ==> c > 0.0;
  }

  /** Nothing borrowed, nothing to repay: the EMI of a zero principal is 0 at any rate. */
  lemma EmiOfNothing(rate: real, n: nat)
    requires rate >= 0.0 && n >= 1
    ensures Emi(0.0, rate, n) == 0.0
  {
    hide Pow;
    if rate > 0.0 {
      PowAtLeastOne(1.0 + rate, n);
      var growth := Pow(1.0 + rate, n);
      var d := growth - 1.0;
      assert d > 0.0;
      assert 0.0 * rate * growth == 0.0;
      assert Emi(0.0, rate, n) == 0.0 / d;
    }
  }

  // ---------------------------------------------------------------------------
  // The running balance of the schedule loop
  // ---------------------------------------------------------------------------

  /**
   * One month of the loop: interest accrues on the balance, the rest of the
   * EMI repays principal, and a balance that would go negative is set to 0.
   */
  function NextBalance(balance: real, rate: real, emi: real): real
  {
    var interest := balance * rate;
    var principal := emi - interest;
    var after := balance - principal;
    if after < 0.0 then 0.0 else after
  }

  /** A month never raises a balance that the installment's interest cover keeps below `p`. */
  lemma NextBalanceBelow(balance: real, p: real, rate: real, emi: real)
    requires 0.0 <= balance <= p && rate >= 0.0 && emi >= p * rate
    ensures NextBalance(balance, rate, emi) <= balance
  {
    MulMonotone(balance, p, rate);
  }

  /** A smaller opening balance or a larger installment never leaves a larger balance. */
  lemma NextBalanceMonotone(low: real, high: real, rate: real, small: real, large: real)
    requires low <= high && rate >= 0.0 && small <= large
    ensures NextBalance(low, rate, large) <= NextBalance(high, rate, small)
  {
    MulMonotone(low, high, rate);
    var lowInterest, highInterest := low * rate, high * rate;
    assert low - (large - lowInterest) <= high - (small - highInterest);
  }

  /** The balance carried out of month `m` (month 0 is the start of the loan). */
  function Balance(p: real, rate: real, emi: real, m: nat): real
  {
    if m == 0 then p else NextBalance(Balance(p, rate, emi, m - 1), rate, emi)
  }

  lemma BalanceSucc(p: real, rate: real, emi: real, k: nat)
    ensures Balance(p, rate, emi, k + 1) == NextBalance(Balance(p, rate, emi, k), rate, emi)
  {
  }

  /** The carried balance is never negative: the clamp catches every overshoot. */
  lemma BalanceNonNegative(p: real, rate: real, emi: real, m: nat)
    requires p >= 0.0
    ensures Balance(p, rate, emi, m) >= 0.0
  {
  }

  /** Once the balance is paid off it stays paid off. */
  lemma {:induction false} BalanceStaysZero(p: real, rate: real, emi: real, m: nat, k: nat)
    requires emi >= 0.0 && m <= k
    requires Balance(p, rate, emi, m) == 0.0
    ensures Balance(p, rate, emi, k) == 0.0
  {
    if m < k {
      BalanceStaysZero(p, rate, emi, m, k - 1);
    }
  }

  /**
   * An installment that covers at least the first month's interest never lets
   * the balance grow: it stays between 0 and the principal and never rises.
   */
  lemma {:induction false} BalanceNonIncreasing(p: real, rate: real, emi: real, m: nat)
    requires p >= 0.0 && rate >= 0.0 && emi >= p * rate
    ensures 0.0 <= Balance(p, rate, emi, m + 1) <= Balance(p, rate, emi, m) <= p
  {
    var b := Balance(p, rate, emi, m);
    if m > 0 {
      BalanceNonIncreasing(p, rate, emi, m - 1);
    }
    NextBalanceBelow(b, p, rate, emi);
    BalanceNonNegative(p, rate, emi, m + 1);
  }

  lemma {:induction false} BalanceAntitone(p: real, rate: real, emi: real, i: nat, j: nat)
    requires p >= 0.0 && rate >= 0.0 && emi >= p * rate && i <= j
    ensures Balance(p, rate, emi, j) <= Balance(p, rate, emi, i)
  {
    if i < j {
      BalanceAntitone(p, rate, emi, i, j - 1);
      BalanceNonIncreasing(p, rate, emi, j - 1);
    }
  }

  /** A larger installment (for instance one carrying the insurance fee) leaves a balance no larger. */
  lemma {:induction false} BalanceAntitoneInEmi(p: real, rate: real, small: real, large: real, m: nat)
    requires p >= 0.0 && rate >= 0.0 && small <= large
    ensures Balance(p, rate, large, m) <= Balance(p, rate, small, m)
  {
    if m > 0 {
      BalanceAntitoneInEmi(p, rate, small, large, m - 1);
      var bl, bs := Balance(p, rate, large, m - 1), Balance(p, rate, small, m - 1);
      NextBalanceMonotone(bl, bs, rate, small, large);
    }
  }

  /**
   * One month of the annuity, scaled by `d = g^n - 1`: a balance `b` with
   * `b * d == p * (g^n - before)` becomes one with `p * (g^n - g * before)`.
   */
  lemma AnnuityStep(p: real, rate: real, total: real, before: real, b: real, emi: real)
    requires b * (total - 1.0) == p * (total - before)
    requires emi * (total - 1.0) == p * rate * total
    ensures (b - (emi - b * rate)) * (total - 1.0) == p * (total - (1.0 + rate) * before)
  {
    var d := total - 1.0;
    calc {
      (b - (emi - b * rate)) * d;
      (b * d) * (1.0 + rate) - emi * d;
      p * (total - before) * (1.0 + rate) - p * rate * total;
      p * (total - (1.0 + rate) * before);
    }
  }

  /** The annuity EMI times `g^n - 1` is `p * rate * g^n`. */
  lemma AnnuityEmiScaled(p: real, rate: real, n: nat)
    requires p >= 0.0 && rate > 0.0 && n >= 1
    ensures Emi(p, rate, n) * (Pow(1.0 + rate, n) - 1.0) == p * rate * Pow(1.0 + rate, n)
  {
    PowAtLeastOne(1.0 + rate, n);
  }

  /** Solving `b * d == x` for `b`. */
  lemma DivideOut(b: real, d: real, x: real)
    requires d != 0.0 && b * d == x
    ensures b == x / d
  {
  }

  /** A quantity whose product with a positive number is not negative is not negative. */
  lemma NonNegativeFactor(x: real, d: real)
    requires d > 0.0 && x * d >= 0.0
    ensures x >= 0.0
  {
  }

  /** One annuity month in the scaled closed form, with the clamp shown not to fire. */
  lemma AnnuityMonth(p: real, rate: real, total: real, before: real, now: real, b: real, emi: real)
    requires p >= 0.0 && rate >= 0.0 && total > 1.0
    requires now == (1.0 + rate) * before && now <= total
    requires b * (total - 1.0) == p * (total - before)
    requires emi * (total - 1.0) == p * rate * total
    ensures NextBalance(b, rate, emi) * (total - 1.0) == p * (total - now)
  {
    var after := b - (emi - b * rate);
    AnnuityStep(p, rate, total, before, b, emi);
    MulMonotone(0.0, total - now, p);
    NonNegativeFactor(after, total - 1.0);
    NextBalanceUnclamped(b, rate, emi);
  }

  /** Before the first month the balance is the principal and the power is 1. */
  lemma BalanceStart(p: real, rate: real, emi: real)
    ensures Balance(p, rate, emi, 0) == p && Pow(1.0 + rate, 0) == 1.0
  {
  }

  /**
   * The closed form of the balance, multiplied out by `total - 1`, for any
   * installment with `emi * (total - 1) == p * rate * total`, as long as
   * `(1 + rate)^m` has not passed `total`.
   */
  lemma {:induction false} AnnuityBalanceScaled(p: real, rate: real, emi: real, total: real, m: nat)
    requires p >= 0.0 && rate > 0.0 && total > 1.0
    requires emi * (total - 1.0) == p * rate * total
    requires Pow(1.0 + rate, m) <= total
    ensures Balance(p, rate, emi, m) * (total - 1.0) == p * (total - Pow(1.0 + rate, m))
  {
    hide Balance, Pow, NextBalance;
    if m > 0 {
      var k: nat := m - 1;
      PowMonotone(1.0 + rate, k, m);
      AnnuityBalanceScaled(p, rate, emi, total, k);
      PowSucc(1.0 + rate, k);
      BalanceSucc(p, rate, emi, k);
      AnnuityMonth(p, rate, total, Pow(1.0 + rate, k), Pow(1.0 + rate, m), Balance(p, rate, emi, k), emi);
    } else {
      BalanceStart(p, rate, emi);
    }
  }

  /**
   * With a positive rate and the annuity EMI the balance follows the closed
   * form `p * (g^n - g^m) / (g^n - 1)`, where `g = 1 + rate`; it never needs
   * the clamp before month `n`.
   */
  lemma AnnuityBalance(p: real, rate: real, n: nat, m: nat)
    requires p >= 0.0 && rate > 0.0 && n >= 1 && m <= n
    ensures var total := Pow(1.0 + rate, n);
      && total > 1.0
      && Balance(p, rate, Emi(p, rate, n), m) == p * (total - Pow(1.0 + rate, m)) / (total - 1.0)
  {
    hide Balance, Pow, Emi;
    var total := Pow(1.0 + rate, n);
    var emi := Emi(p, rate, n);
    PowAtLeastOne(1.0 + rate, n);
    AnnuityEmiScaled(p, rate, n);
    PowMonotone(1.0 + rate, m, n);
    AnnuityBalanceScaled(p, rate, emi, total, m);
    DivideOut(Balance(p, rate, emi, m), total - 1.0, p * (total - Pow(1.0 + rate, m)));
  }

  /** A balance whose scaled form has a vanishing right-hand side is 0. */
  lemma ScaledZero(b: real, d: real, p: real, x: real)
    requires d > 0.0 && b * d == p * (x - x)
    ensures b == 0.0
  {
  }

  /** With a positive rate the annuity EMI pays the loan off exactly at month `n`. */
  lemma AnnuityPaidOff(p: real, rate: real, n: nat)
    requires p >= 0.0 && rate > 0.0 && n >= 1
    ensures Balance(p, rate, Emi(p, rate, n), n) == 0.0
  {
    hide Balance, Pow, Emi;
    PowAtLeastOne(1.0 + rate, n);
    AnnuityEmiScaled(p, rate, n);
    AnnuityBalanceScaled(p, rate, Emi(p, rate, n), Pow(1.0 + rate, n), n);
    ScaledZero(Balance(p, rate, Emi(p, rate, n), n), Pow(1.0 + rate, n) - 1.0, p, Pow(1.0 + rate, n));
  }

  /** A month whose closing balance is not negative is not clamped. */
  lemma NextBalanceUnclamped(balance: real, rate: real, emi: real)
    requires balance - (emi - balance * rate) >= 0.0
    ensures NextBalance(balance, rate, emi) == balance - (emi - balance * rate)
  {
  }

  /** A zero-rate month takes one whole installment off a balance that still covers it. */
  lemma ZeroRateMonth(p: real, emi: real, n: nat, k: nat, b: real)
    requires emi >= 0.0 && emi * n as real == p && k < n
    requires b == p - k as real * emi
    ensures NextBalance(b, 0.0, emi) == p - (k + 1) as real * emi
  {
    MulMonotone((k + 1) as real, n as real, emi);
    NextBalanceUnclamped(b, 0.0, emi);
  }

  /**
   * With a zero rate and an installment `emi` with `n * emi == p`, the balance
   * falls by one installment every month: after `m` months it is `p - m * emi`.
   */
  lemma {:induction false} ZeroRateBalanceLinear(p: real, emi: real, n: nat, m: nat)
    requires emi >= 0.0 && emi * n as real == p && m <= n
    ensures Balance(p, 0.0, emi, m) == p - m as real * emi
  {
    hide Balance, NextBalance;
    if m > 0 {
      var k: nat := m - 1;
      ZeroRateBalanceLinear(p, emi, n, k);
      BalanceSucc(p, 0.0, emi, k);
      ZeroRateMonth(p, emi, n, k, Balance(p, 0.0, emi, k));
    } else {
      BalanceStart(p, 0.0, emi);
    }
  }

  /** With a zero rate the EMI is `p / n` and the balance falls by it every month. */
  lemma ZeroRateBalance(p: real, n: nat, m: nat)
    requires p >= 0.0 && n >= 1 && m <= n
    ensures var emi := Emi(p, 0.0, n);
      && emi == p / n as real
      && Balance(p, 0.0, emi, m) == p - m as real * emi
  {
    hide Balance, Emi;
    EmiCoversInterest(p, 0.0, n);
    DivideOut(Emi(p, 0.0, n), n as real, p);
    ZeroRateBalanceLinear(p, Emi(p, 0.0, n), n, m);
  }

  /** The EMI the loop works with: the installment, plus the fee when insurance is on. */
  function LoopEmi(p: real, rate: real, n: nat, insurance: bool): real
    requires rate >= 0.0 && n >= 1
  {
    var emi := Emi(p, rate, n);
    if insurance then emi + InsuranceFee as real else emi
  }

  /** The installment the loop uses, fee or no fee, covers the first month's interest. */
  lemma LoopEmiCoversInterest(p: real, rate: real, n: nat, insurance: bool)
    requires p >= 0.0 && rate >= 0.0 && n >= 1
    ensures LoopEmi(p, rate, n, insurance) >= Emi(p, rate, n) >= p * rate
  {
    EmiCoversInterest(p, rate, n);
  }

  /**
   * In exact arithmetic the loan is paid off by the last month, with or
   * without insurance; with the fee it is paid off no later than without.
   */
  lemma FinalBalanceZero(p: real, rate: real, n: nat, insurance: bool)
    requires p >= 0.0 && rate >= 0.0 && n >= 1
    ensures Balance(p, rate, LoopEmi(p, rate, n, insurance), n) == 0.0
  {
    hide Balance, Pow, Emi;
    var emi := Emi(p, rate, n);
    if rate == 0.0 {
      ZeroRateBalance(p, n, n);
      EmiCoversInterest(p, rate, n);
    } else {
      AnnuityPaidOff(p, rate, n);
    }
    BalanceAntitoneInEmi(p, rate, emi, LoopEmi(p, rate, n, insurance), n);
    BalanceNonNegative(p, rate, LoopEmi(p, rate, n, insurance), n);
  }

  // ---------------------------------------------------------------------------
  // The emitted rows
  // ---------------------------------------------------------------------------

  /**
   * The row one pass of the loop appends for `month`, given the balance it
   * opens with: the interest on that balance, the rest of the EMI as
   * principal, and the balance it closes with, each money column rounded to
   * 2 places.
   */
  function MonthRow(month: nat, opening: real, rate: real, emi: real): Row
  {
    var interest := opening * rate;
    var principal := emi - interest;
    Row(month, Round2(emi), Round2(interest), Round2(principal), Round2(NextBalance(opening, rate, emi)))
  }

  /** The columns of a month's row, each the rounding of the loop's unrounded quantity. */
  lemma MonthRowColumns(month: nat, opening: real, rate: real, emi: real)
    ensures var r := MonthRow(month, opening, rate, emi);
      && r.month == month
      && r.emi == Round2(emi)
      && r.interest == Round2(opening * rate)
      && r.principal == Round2(emi - opening * rate)
      && r.balance == Round2(NextBalance(opening, rate, emi))
  {
  }

  /** At a zero rate a month charges no interest and books the whole EMI as principal. */
  lemma MonthRowZeroRate(month: nat, opening: real, emi: real)
    ensures MonthRow(month, opening, 0.0, emi).interest == 0.0
    ensures MonthRow(month, opening, 0.0, emi).principal == Round2(emi)
  {
    RoundHalfEvenInt(0);
  }

  /** A month opening with nothing owed charges no interest, books the whole EMI column as principal and closes at 0. */
  lemma MonthRowPaidOff(month: nat, rate: real, emi: real)
    requires emi >= 0.0
    ensures var r := MonthRow(month, 0.0, rate, emi);
      r.interest == 0.0 && r.principal == r.emi && r.balance == 0.0
  {
    RoundHalfEvenInt(0);
  }

  /** Every money column of a month's row is a whole number of hundredths. */
  lemma MonthRowWholeCents(month: nat, opening: real, rate: real, emi: real)
    ensures var r := MonthRow(month, opening, rate, emi);
      WholeCents(r.emi) && WholeCents(r.interest) && WholeCents(r.principal) && WholeCents(r.balance)
  {
    MonthRowColumns(month, opening, rate, emi);
    Round2WholeCents(emi);
    Round2WholeCents(opening * rate);
    Round2WholeCents(emi - opening * rate);
    Round2WholeCents(NextBalance(opening, rate, emi));
  }

  /** The row of the loop's `i`-th pass (month `i + 1`), opening with the balance carried out of month `i`. */
  function RowAt(p: real, rate: real, emi: real, i: nat): Row
  {
    MonthRow(i + 1, Balance(p, rate, emi, i), rate, emi)
  }

  /** The first `k` rows of the table. */
  function Schedule(p: real, rate: real, emi: real, k: nat): (rows: seq<Row>)
    ensures |rows| == k
    ensures forall i :: 0 <= i < k ==> rows[i] == RowAt(p, rate, emi, i)
  {
    if k == 0 then [] else Schedule(p, rate, emi, k - 1) + [RowAt(p, rate, emi, k - 1)]
  }

  lemma ScheduleSucc(p: real, rate: real, emi: real, k: nat)
    ensures Schedule(p, rate, emi, k + 1) == Schedule(p, rate, emi, k) + [RowAt(p, rate, emi, k)]
  {
  }

  /** Every row shows the loop's EMI, rounded. */
  lemma RowEmi(p: real, rate: real, emi: real, i: nat)
    ensures RowAt(p, rate, emi, i).emi == Round2(emi)
  {
  }

  /** The first row charges interest on the whole principal and books the rest of the EMI as principal. */
  lemma RowFirst(p: real, rate: real, emi: real)
    ensures RowAt(p, rate, emi, 0).interest == Round2(p * rate)
    ensures RowAt(p, rate, emi, 0).principal == Round2(emi - p * rate)
  {
    BalanceStart(p, rate, emi);
    assert RowAt(p, rate, emi, 0) == MonthRow(1, p, rate, emi);
  }

  /** The balance column shows the carried balance of the same month, rounded. */
  lemma RowBalance(p: real, rate: real, emi: real, i: nat)
    ensures RowAt(p, rate, emi, i).balance == Round2(Balance(p, rate, emi, i + 1))
  {
    BalanceSucc(p, rate, emi, i);
  }

  /**
   * Each row charges interest on the balance carried into its month and books
   * the rest of the EMI as principal; the three rounded columns add up to the
   * EMI within 1.5 paise.
   */
  lemma RowColumns(p: real, rate: real, emi: real, i: nat)
    ensures RowAt(p, rate, emi, i).month == i + 1
    ensures RowAt(p, rate, emi, i).interest == Round2(Balance(p, rate, emi, i) * rate)
    ensures RowAt(p, rate, emi, i).principal == Round2(emi - Balance(p, rate, emi, i) * rate)
    ensures var r := RowAt(p, rate, emi, i);
      -0.015 <= r.interest + r.principal - r.emi <= 0.015
  {
    hide Balance, Round2;
    assert RowAt(p, rate, emi, i) == MonthRow(i + 1, Balance(p, rate, emi, i), rate, emi);
    Round2Error(Balance(p, rate, emi, i) * rate);
    Round2Error(emi - Balance(p, rate, emi, i) * rate);
    Round2Error(emi);
  }

  /**
   * The table has one row per month, numbered 1..n in order, every row shows
   * the same EMI, and the balance column never goes negative and never rises.
   */
  lemma ScheduleShape(p: real, rate: real, emi: real, n: nat)
    requires p >= 0.0 && rate >= 0.0 && emi >= p * rate
    ensures var rows := Schedule(p, rate, emi, n);
      && |rows| == n
      && (forall i :: 0 <= i < n ==> rows[i].month == i + 1 && rows[i].emi == Round2(emi))
      && (forall i :: 0 <= i < n ==> rows[i].balance >= 0.0)
      && (forall i, j :: 0 <= i <= j < n ==> rows[j].balance <= rows[i].balance)
  {
    var rows := Schedule(p, rate, emi, n);
    forall i | 0 <= i < n
      ensures rows[i].balance >= 0.0
    {
      RowBalance(p, rate, emi, i);
      Round2NonNegative(Balance(p, rate, emi, i + 1));
    }
    forall i, j | 0 <= i <= j < n
      ensures rows[j].balance <= rows[i].balance
    {
      RowBalance(p, rate, emi, i);
      RowBalance(p, rate, emi, j);
      BalanceAntitone(p, rate, emi, i + 1, j + 1);
      Round2Monotone(Balance(p, rate, emi, j + 1), Balance(p, rate, emi, i + 1));
    }
  }

  /** The last row shows a zero balance, with or without insurance. */
  lemma LastRowPaidOff(p: real, rate: real, n: nat, insurance: bool)
    requires p >= 0.0 && rate >= 0.0 && n >= 1
    ensures Schedule(p, rate, LoopEmi(p, rate, n, insurance), n)[n - 1].balance == 0.0
  {
    var emi := LoopEmi(p, rate, n, insurance);
    FinalBalanceZero(p, rate, n, insurance);
    RowBalance(p, rate, emi, n - 1);
  }

  /**
   * Once the carried balance is 0, every later row shows no interest, books
   * the whole EMI column as principal and shows a zero balance.
   */
  lemma RowsAfterPayoff(p: real, rate: real, emi: real, n: nat, m: nat)
    requires emi >= 0.0 && m <= n
    requires Balance(p, rate, emi, m) == 0.0
    ensures var rows := Schedule(p, rate, emi, n);
      forall i :: m <= i < n ==>
        rows[i].interest == 0.0 && rows[i].principal == rows[i].emi && rows[i].balance == 0.0
  {
    hide Balance, MonthRow;
    var rows := Schedule(p, rate, emi, n);
    forall i | m <= i < n
      ensures rows[i].interest == 0.0 && rows[i].principal == rows[i].emi && rows[i].balance == 0.0
    {
      BalanceStaysZero(p, rate, emi, m, i);
      assert rows[i] == MonthRow(i + 1, 0.0, rate, emi);
      MonthRowPaidOff(i + 1, rate, emi);
    }
  }

  /**
   * A schedule that starts with nothing owed shows, in every row, the rounded
   * installment as EMI, no interest, the whole EMI column as principal and a
   * zero balance; its Interest column sums to 0.
   */
  lemma NothingOwedRows(rate: real, emi: real, n: nat)
    requires emi >= 0.0
    ensures var rows := Schedule(0.0, rate, emi, n);
      && (forall i :: 0 <= i < n ==>
            rows[i].emi == Round2(emi) && rows[i].interest == 0.0
            && rows[i].principal == rows[i].emi && rows[i].balance == 0.0)
      && TotalInterest(rows) == 0.0
  {
    hide Balance, MonthRow, Round2, TotalInterest;
    var rows := Schedule(0.0, rate, emi, n);
    BalanceStart(0.0, rate, emi);
    Round2NonNegative(emi);
    forall i | 0 <= i < n
      ensures rows[i].emi == Round2(emi) && rows[i].interest == 0.0
      ensures rows[i].principal == rows[i].emi && rows[i].balance == 0.0
      ensures 0.0 <= rows[i].interest <= rows[i].emi
    {
      BalanceStaysZero(0.0, rate, emi, 0, i);
      assert rows[i] == MonthRow(i + 1, 0.0, rate, emi);
      MonthRowPaidOff(i + 1, rate, emi);
      MonthRowColumns(i + 1, 0.0, rate, emi);
    }
    ColumnTotals(rows);
  }

  /**
   * A deposit that covers the loan leaves nothing to borrow: the EMI is 0, and
   * every row shows just the fee (or 0) as its EMI, no interest, that same
   * amount as principal and a zero balance; the Interest column sums to 0.
   */
  lemma ZeroPrincipalRows(rate: real, n: nat, insurance: bool)
    requires rate >= 0.0 && n >= 1
    ensures Emi(0.0, rate, n) == 0.0
    ensures var fee := if insurance then InsuranceFee as real else 0.0;
      var rows := Schedule(0.0, rate, LoopEmi(0.0, rate, n, insurance), n);
      && (forall i :: 0 <= i < n ==>
            rows[i].emi == fee && rows[i].interest == 0.0 && rows[i].principal == fee && rows[i].balance == 0.0)
      && TotalInterest(rows) == 0.0
  {
    hide Balance, Emi, Pow, RowAt, Schedule, TotalInterest, Round2;
    var fee := if insurance then InsuranceFee as real else 0.0;
    EmiOfNothing(rate, n);
    assert LoopEmi(0.0, rate, n, insurance) == fee;
    Round2OfWholeCents(fee);
    NothingOwedRows(rate, fee, n);
  }

  /**
   * A zero-rate loan is linear: `n * emi == p`, no month charges interest,
   * every month repays the whole EMI as principal, and Total Interest is 0.
   */
  lemma ZeroRateRows(p: real, n: nat)
    requires p >= 0.0 && n >= 1
    ensures var emi := Emi(p, 0.0, n);
      var rows := Schedule(p, 0.0, emi, n);
      && emi * n as real == p
      && (forall i :: 0 <= i < n ==> rows[i].interest == 0.0 && rows[i].principal == Round2(emi))
      && TotalInterest(rows) == 0.0
  {
    hide Balance, Emi, Pow, MonthRow, Schedule, TotalInterest;
    EmiCoversInterest(p, 0.0, n);
    var emi := Emi(p, 0.0, n);
    var rows := Schedule(p, 0.0, emi, n);
    forall i | 0 <= i < n
      ensures rows[i].interest == 0.0 && rows[i].principal == Round2(emi)
      ensures 0.0 <= rows[i].interest <= rows[i].emi
    {
      MonthRowZeroRate(i + 1, Balance(p, 0.0, emi, i), emi);
      RowInterestBounded(p, 0.0, emi, i);
    }
    ColumnTotals(rows);
  }

  /** The fee raises one row's EMI by exactly 500 and never raises its balance. */
  lemma InsuredRow(p: real, rate: real, emi: real, i: nat)
    requires p >= 0.0 && rate >= 0.0
    ensures RowAt(p, rate, emi + InsuranceFee as real, i).emi == RowAt(p, rate, emi, i).emi + InsuranceFee as real
    ensures RowAt(p, rate, emi + InsuranceFee as real, i).balance <= RowAt(p, rate, emi, i).balance
  {
    var fee := InsuranceFee as real;
    hide RowAt, Balance, Round2;
    Round2AddRupees(emi, InsuranceFee);
    RowEmi(p, rate, emi, i);
    RowEmi(p, rate, emi + fee, i);
    RowBalance(p, rate, emi, i);
    RowBalance(p, rate, emi + fee, i);
    BalanceAntitoneInEmi(p, rate, emi, emi + fee, i + 1);
    Round2Monotone(Balance(p, rate, emi + fee, i + 1), Balance(p, rate, emi, i + 1));
  }

  /**
   * The insurance fee raises every row's EMI by exactly 500 and never raises a
   * balance; in the first month the interest is unchanged and the whole fee is
   * booked as principal repayment.
   */
  lemma InsuranceRows(p: real, rate: real, n: nat)
    requires p >= 0.0 && rate >= 0.0 && n >= 1
    ensures var plain := Schedule(p, rate, LoopEmi(p, rate, n, false), n);
      var insured := Schedule(p, rate, LoopEmi(p, rate, n, true), n);
      && (forall i :: 0 <= i < n ==> insured[i].emi == plain[i].emi + InsuranceFee as real)
      && (forall i :: 0 <= i < n ==> insured[i].balance <= plain[i].balance)
      && insured[0].interest == plain[0].interest
      && insured[0].principal == plain[0].principal + InsuranceFee as real
  {
    hide RowAt, Balance, Emi, Round2;
    var emi := Emi(p, rate, n);
    var fee := InsuranceFee as real;
    var plain := Schedule(p, rate, emi, n);
    var insured := Schedule(p, rate, emi + fee, n);
    forall i | 0 <= i < n
      ensures insured[i].emi == plain[i].emi + fee
      ensures insured[i].balance <= plain[i].balance
    {
      InsuredRow(p, rate, emi, i);
    }
    RowFirst(p, rate, emi);
    RowFirst(p, rate, emi + fee);
    assert emi + fee - p * rate == (emi - p * rate) + fee;
    Round2AddRupees(emi - p * rate, InsuranceFee);
  }

  // ---------------------------------------------------------------------------
  // The summary
  // ---------------------------------------------------------------------------

  /** `df["Interest"].sum()`: the Interest column added up. */
  function TotalInterest(rows: seq<Row>): real
  {
    if rows == [] then 0.0 else TotalInterest(rows[..|rows| - 1]) + rows[|rows| - 1].interest
  }

  /** `df["EMI"].sum()`: the EMI column added up. */
  function TotalPayment(rows: seq<Row>): real
  {
    if rows == [] then 0.0 else TotalPayment(rows[..|rows| - 1]) + rows[|rows| - 1].emi
  }

  /** The summary panel: principal, rounded EMI and the rounded column totals of `rows`. */
  function Summarize(p: int, emi: real, rows: seq<Row>): Summary
  {
    Summary(p, Round2(emi), Round2(TotalInterest(rows)), Round2(TotalPayment(rows)))
  }

  /** A column of `count` rows that all show the same EMI `e` adds up to `count * e`. */
  lemma {:induction false} TotalPaymentConstant(rows: seq<Row>, e: real, count: nat)
    requires count == |rows|
    requires forall i :: 0 <= i < |rows| ==> rows[i].emi == e
    ensures TotalPayment(rows) == count as real * e
  {
    if rows != [] {
      var init := rows[..|rows| - 1];
      assert forall i :: 0 <= i < |init| ==> init[i].emi == e;
      TotalPaymentConstant(init, e, count - 1);
    }
  }

  /**
   * A column of interest amounts, each between 0 and its row's EMI, adds up
   * to no more than the EMI column; all-zero interest adds up to 0.
   */
  lemma {:induction false} ColumnTotals(rows: seq<Row>)
    requires forall i :: 0 <= i < |rows| ==> 0.0 <= rows[i].interest <= rows[i].emi
    ensures 0.0 <= TotalInterest(rows) <= TotalPayment(rows)
    ensures (forall i :: 0 <= i < |rows| ==> rows[i].interest == 0.0) ==> TotalInterest(rows) == 0.0
  {
    if rows != [] {
      var init := rows[..|rows| - 1];
      assert forall i :: 0 <= i < |init| ==> init[i] == rows[i];
      ColumnTotals(init);
    }
  }

  /**
   * A month opening with a balance between 0 and `p` charges, once rounded,
   * between 0 and the EMI in interest when the EMI covers `p`'s interest.
   */
  lemma MonthInterestBounded(month: nat, opening: real, p: real, rate: real, emi: real)
    requires 0.0 <= opening <= p && rate >= 0.0 && emi >= p * rate
    ensures 0.0 <= MonthRow(month, opening, rate, emi).interest <= MonthRow(month, opening, rate, emi).emi
  {
    MulMonotone(0.0, opening, rate);
    MulMonotone(opening, p, rate);
    Round2NonNegative(opening * rate);
    Round2Monotone(opening * rate, emi);
    MonthRowColumns(month, opening, rate, emi);
  }

  /** No month charges negative interest or more interest than the EMI it collects. */
  lemma RowInterestBounded(p: real, rate: real, emi: real, i: nat)
    requires p >= 0.0 && rate >= 0.0 && emi >= p * rate
    ensures 0.0 <= RowAt(p, rate, emi, i).interest <= RowAt(p, rate, emi, i).emi
  {
    hide Balance, MonthRow;
    BalanceNonIncreasing(p, rate, emi, i);
    BalanceNonNegative(p, rate, emi, i);
    MonthInterestBounded(i + 1, Balance(p, rate, emi, i), p, rate, emi);
  }

  /** The schedule's Total Interest is never negative and never exceeds its Total Payment. */
  lemma ScheduleTotals(p: real, rate: real, emi: real, n: nat)
    requires p >= 0.0 && rate >= 0.0 && emi >= p * rate
    ensures var rows := Schedule(p, rate, emi, n);
      0.0 <= TotalInterest(rows) <= TotalPayment(rows)
  {
    hide RowAt, Round2, Balance;
    var rows := Schedule(p, rate, emi, n);
    forall i | 0 <= i < n
      ensures 0.0 <= rows[i].interest <= rows[i].emi
    {
      RowInterestBounded(p, rate, emi, i);
    }
    ColumnTotals(rows);
  }


  /** An Interest column of whole hundredths adds up to whole hundredths. */
  lemma {:induction false} InterestColumnWholeCents(rows: seq<Row>)
    requires forall i :: 0 <= i < |rows| ==> WholeCents(rows[i].interest)
    ensures WholeCents(TotalInterest(rows))
  {
    if rows != [] {
      var init := rows[..|rows| - 1];
      assert forall i :: 0 <= i < |init| ==> init[i] == rows[i];
      InterestColumnWholeCents(init);
      WholeCentsAdd(TotalInterest(init), rows[|rows| - 1].interest);
    }
  }

  /** The table's Interest column adds up to a total that `round(·, 2)` leaves unchanged. */
  lemma ScheduleInterestExact(p: real, rate: real, emi: real, n: nat, rows: seq<Row>)
    requires rows == Schedule(p, rate, emi, n)
    ensures Round2(TotalInterest(rows)) == TotalInterest(rows)
  {
    hide Balance, MonthRow, Round2, TotalInterest;
    forall i | 0 <= i < n
      ensures WholeCents(rows[i].interest)
    {
      assert rows[i] == MonthRow(i + 1, Balance(p, rate, emi, i), rate, emi);
      MonthRowWholeCents(i + 1, Balance(p, rate, emi, i), rate, emi);
    }
    InterestColumnWholeCents(rows);
    Round2OfWholeCents(TotalInterest(rows));
  }

  /**
   * The summary reconciles with the table: Total Payment is exactly the term
   * times the Monthly EMI shown in every row, and Total Interest is the
   * rounded sum of the Interest column.
   */
  lemma SummaryReconciles(p: int, rate: real, emi: real, n: nat, rows: seq<Row>)
    requires rows == Schedule(p as real, rate, emi, n)
    ensures var s := Summarize(p, emi, rows);
      && s.principal == p
      && (forall i :: 0 <= i < n ==> rows[i].emi == s.monthlyEmi)
      && s.totalPayment == n as real * s.monthlyEmi
      && s.totalPayment == TotalPayment(rows)
      && s.totalInterest == TotalInterest(rows)
  {
    hide RowAt, Round2, TotalPayment, TotalInterest, Balance;
    forall i | 0 <= i < n
      ensures rows[i].emi == Round2(emi)
    {
      RowEmi(p as real, rate, emi, i);
    }
    TotalPaymentConstant(rows, Round2(emi), n);
    Round2OfMultiple(n, emi);
    assert TotalPayment(rows) == n as real * Round2(emi);
    assert Summarize(p, emi, rows).monthlyEmi == Round2(emi);
    assert Summarize(p, emi, rows).totalPayment == Round2(TotalPayment(rows));
    assert Round2(TotalPayment(rows)) == Round2(n as real * Round2(emi));
    ScheduleInterestExact(p as real, rate, emi, n, rows);
    assert Summarize(p, emi, rows).totalInterest == Round2(TotalInterest(rows));
  }

  // ---------------------------------------------------------------------------
  // The whole calculation
  // ---------------------------------------------------------------------------

  /**
   * The table the program shows for a principal `p`, monthly rate `rate`,
   * term `n` and insurance choice: one row per month numbered 1..n, every row
   * showing the same rounded EMI, and balances that never go negative, never
   * rise and end at 0.
   */
  lemma TableGuarantees(p: real, rate: real, n: nat, insurance: bool)
    requires p >= 0.0 && rate >= 0.0 && n >= 1
    ensures var emi := LoopEmi(p, rate, n, insurance);
      var rows := Schedule(p, rate, emi, n);
      && |rows| == n
      && (forall i :: 0 <= i < n ==> rows[i].month == i + 1 && rows[i].emi == Round2(emi))
      && (forall i :: 0 <= i < n ==> rows[i].balance >= 0.0)
      && (forall i, j :: 0 <= i <= j < n ==> rows[j].balance <= rows[i].balance)
      && rows[n - 1].balance == 0.0
  {
    hide Balance, RowAt, Round2, Emi, Pow, Schedule, LoopEmi;
    var emi := LoopEmi(p, rate, n, insurance);
    LoopEmiCoversInterest(p, rate, n, insurance);
    ScheduleShape(p, rate, emi, n);
    LastRowPaidOff(p, rate, n, insurance);
  }

  /**
   * The summary panel for the same inputs: it shows the principal, a Monthly
   * EMI equal to every row's EMI, a Total Payment of exactly `n` times that
   * EMI, and a Total Interest between 0 and the Total Payment.
   */
  lemma SummaryGuarantees(p: int, rate: real, n: nat, insurance: bool, rows: seq<Row>)
    requires p >= 0 && rate >= 0.0 && n >= 1
    requires rows == Schedule(p as real, rate, LoopEmi(p as real, rate, n, insurance), n)
    ensures var s := Summarize(p, LoopEmi(p as real, rate, n, insurance), rows);
      && s.principal == p
      && (forall i :: 0 <= i < n ==> rows[i].emi == s.monthlyEmi)
      && s.totalPayment == n as real * s.monthlyEmi
      && s.totalPayment == TotalPayment(rows)
      && s.totalInterest == TotalInterest(rows)
      && 0.0 <= s.totalInterest <= s.totalPayment
  {
    hide Balance, RowAt, Emi, Pow, Schedule, TotalInterest, TotalPayment, LoopEmi;
    var emi := LoopEmi(p as real, rate, n, insurance);
    LoopEmiCoversInterest(p as real, rate, n, insurance);
    SummaryReconciles(p, rate, emi, n, rows);
    ScheduleTotals(p as real, rate, emi, n);
  }
}
