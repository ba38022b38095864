/**
 * The calculation part of the loan calculator script: the inputs it reads
 * from its widgets are parameters, the EMI is adjusted in place for the
 * insurance surcharge, and the amortization table is built month by month
 * by a loop that carries the outstanding balance.
 */
module LoanApp {
  import opened Rounding
  import opened Amortization

  /**
   * The schedule loop: starting from the principal, each month charges
   * interest on the balance, books the rest of the EMI as principal, lowers
   * the balance by it (clamping at 0) and appends the rounded row.
   */
  method BuildSchedule(p: real, rate: real, emi: real, n: nat) returns (rows: seq<Row>)
    ensures rows == Schedule(p, rate, emi, n)
    ensures |rows| == n
    ensures forall i :: 0 <= i < n ==> rows[i].month == i + 1
  {
    hide Balance, Schedule, Round2;
    var balance := p;
    rows := [];
    BalanceStart(p, rate, emi);
    var month := 1;
    while month <= n
      invariant 1 <= month <= n + 1
      invariant balance == Balance(p, rate, emi, month - 1)
      invariant rows == Schedule(p, rate, emi, month - 1)
    {
      ghost var k: nat := month - 1;
      ghost var expected := MonthRow(month, balance, rate, emi);
      ghost var closing := NextBalance(balance, rate, emi);
      BalanceSucc(p, rate, emi, k);
      ScheduleSucc(p, rate, emi, k);
      MonthRowColumns(month, balance, rate, emi);
      assert expected == RowAt(p, rate, emi, k);
      var interest := balance * rate;
      var principal := emi - interest;
      assert expected.interest == Round2(interest) && expected.principal == Round2(principal);
      balance := balance - principal;
      if balance < 0.0 {
        balance := 0.0;
      }
      assert balance == closing;
      var row := Row(month, Round2(emi), Round2(interest), Round2(principal), Round2(balance));
      assert row == expected;
      rows := rows + [row];
      month := month + 1;
    }
    forall i | 0 <= i < n
      ensures rows[i].month == i + 1
    {
      RowColumns(p, rate, emi, i);
    }
  }

  /**
   * The whole calculation for one set of widget values: principal, monthly
   * rate, term, EMI (with the surcharge when insurance is on), the table and
   * the summary panel.
   */
  method Calculate(loanAmount: int, deposit: int, interestRate: real, years: int, insurance: bool)
    returns (rows: seq<Row>, summary: Summary)
    requires loanAmount >= 10000 && deposit >= 0
    requires 1.0 <= interestRate <= 24.0
    requires 1 <= years <= 30
    ensures var p := Principal(loanAmount, deposit);
      var rate := MonthlyRate(interestRate);
      var n := Term(years);
      var emi := LoopEmi(p as real, rate, n, insurance);
      && rows == Schedule(p as real, rate, emi, n)
      && summary == Summarize(p, emi, rows)
    ensures |rows| == years * 12
    ensures forall i :: 0 <= i < |rows| ==> rows[i].month == i + 1
    ensures forall i :: 0 <= i < |rows| ==> rows[i].emi == summary.monthlyEmi
    ensures forall i :: 0 <= i < |rows| ==> rows[i].balance >= 0.0
    ensures forall i, j :: 0 <= i <= j < |rows| ==> rows[j].balance <= rows[i].balance
    ensures rows[|rows| - 1].balance == 0.0
    ensures summary.principal >= 0 && summary.principal >= loanAmount - deposit
    ensures summary.totalPayment == |rows| as real * summary.monthlyEmi
    ensures summary.totalPayment == TotalPayment(rows) && summary.totalInterest == TotalInterest(rows)
    ensures 0.0 <= summary.totalInterest <= summary.totalPayment
  {
    hide Balance, Schedule, RowAt, Round2, Emi, Pow;
    var p := Principal(loanAmount, deposit);
    var rate := MonthlyRate(interestRate);
    var n := Term(years);
    var emi := Emi(p as real, rate, n);
    if insurance {
      emi := emi + InsuranceFee as real;
    }
    rows := BuildSchedule(p as real, rate, emi, n);
    summary := Summarize(p, emi, rows);
    TableGuarantees(p as real, rate, n, insurance);
    SummaryGuarantees(p, rate, n, insurance, rows);
  }
}
