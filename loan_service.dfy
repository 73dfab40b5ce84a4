/**
 * LoanService (app/Services/LoanService.php): `createLoan` builds the loan and
 * its schedule, `repayLoan` records a payment and walks the installments.
 * The database is the objects themselves: a loan's scheduled repayments are
 * the sequence `schedule`, held in due-date order.
 */
module LoanService {
  import opened Common
  import Loans
  import SR = ScheduledRepayments
  import ReceivedRepayments
  import opened LoanSchedule

  /**
   * `schedule` lists scheduled repayments of `loan`, each stored once, in
   * strictly increasing due order: the order of the query in `repayLoan`.
   */
  predicate InstallmentsOf(loan: Loans.Loan, schedule: seq<SR.ScheduledRepayment>) {
    && (forall k :: 0 <= k < |schedule| ==> schedule[k].loan == loan)
    && (forall j, k :: 0 <= j < k < |schedule| ==> schedule[j] != schedule[k])
    && (forall j, k :: 0 <= j < k < |schedule| ==> schedule[j].dueMonth < schedule[k].dueMonth)
  }

  /** The installments' current columns, as values. */
  ghost function Views(schedule: seq<SR.ScheduledRepayment>): (r: seq<SR.Installment>)
    reads schedule
    ensures |r| == |schedule|
    ensures forall k :: 0 <= k < |schedule| ==> r[k] == schedule[k].View()
  {
    seq(|schedule|, k requires 0 <= k < |schedule| reads schedule => schedule[k].View())
  }

  /** The ledger invariant of LoanSchedule.Consistent, on the stored records. */
  ghost predicate LedgerValid(loan: Loans.Loan, schedule: seq<SR.ScheduledRepayment>)
    reads loan, schedule
  {
    InstallmentsOf(loan, schedule) && Consistent(loan.amount, loan.outstanding, loan.status, Views(schedule))
  }

  /**
   * `createLoan`: the loan owes its whole principal, then installment `i` of
   * `terms` is created due `i` months after the processed date, for the
   * truncated share of the principal, the last one also taking the remainder.
   * A negative principal fails the loan's assertion; a non-positive term count
   * gives a loan without installments.
   */
  method CreateLoan(id: nat, userId: nat, amount: int, currency: CurrencyCode, terms: int, processedAt: DateText)
    returns (loan: Option<Loans.Loan>, schedule: seq<SR.ScheduledRepayment>)
    ensures loan.Some? <==> amount >= 0
    ensures loan.None? ==> schedule == []
    ensures loan.Some? ==> fresh(loan.value) && loan.value.Valid()
    ensures loan.Some? ==> loan.value.id == id && loan.value.userId == userId && loan.value.amount == amount
    ensures loan.Some? ==> loan.value.terms == terms && loan.value.currency == currency && loan.value.processedAt == processedAt
    // a new loan owes its principal
    ensures loan.Some? ==> loan.value.outstanding == amount
    ensures loan.Some? ==> |schedule| == Max(terms, 0) && InstallmentsOf(loan.value, schedule)
    ensures loan.Some? ==> forall k :: 0 <= k < |schedule| ==>
              && fresh(schedule[k])
              && schedule[k].amount == Split(amount, terms)[k]
              && schedule[k].dueMonth == k + 1
              && schedule[k].currency == currency
              && schedule[k].outstanding == schedule[k].amount
              && schedule[k].Valid()
    ensures loan.Some? && (terms > 0 || amount == 0) ==> LedgerValid(loan.value, schedule)
  {
    var created := Loans.Create(id, userId, amount, terms, currency, processedAt, Some(amount));
    if created.None? {
      return None, [];
    }
    var l := created.value;
    schedule := [];
    var i := 1;
    while i <= terms
      invariant 1 <= i && (terms > 0 ==> i <= terms + 1) && (terms <= 0 ==> i == 1)
      invariant |schedule| == i - 1
      invariant l.Valid() && l.outstanding == amount
      invariant forall k :: 0 <= k < |schedule| ==>
                  && fresh(schedule[k])
                  && schedule[k].loan == l
                  && schedule[k].amount == InstallmentAmount(amount, terms, k + 1)
                  && schedule[k].dueMonth == k + 1
                  && schedule[k].currency == currency
                  && schedule[k].outstanding == schedule[k].amount
                  && schedule[k].Valid()
      invariant forall j, k :: 0 <= j < k < |schedule| ==> schedule[j] != schedule[k]
    {
      // `intdiv` and `%` truncate; the principal is non-negative here
      var termAmount := IntDiv(amount, terms);
      var currentAmount := if i == terms then termAmount + Rem(amount, terms) else termAmount;
      var installment := SR.Create(l, currentAmount, currency, i, None, None);
      schedule := schedule + [installment.value];
      i := i + 1;
    }
    loan := Some(l);
    if terms > 0 || amount == 0 {
      FreshLedger(l, schedule, terms);
    }
  }

  /** A loan that owes its principal, over its fresh installments of the split amounts, keeps the ledger. */
  lemma FreshLedger(loan: Loans.Loan, schedule: seq<SR.ScheduledRepayment>, terms: int)
    requires loan.Valid() && loan.outstanding == loan.amount && InstallmentsOf(loan, schedule)
    requires terms > 0 || loan.amount == 0
    requires |schedule| == Max(terms, 0)
    requires forall k :: 0 <= k < |schedule| ==>
               && schedule[k].amount == Split(loan.amount, terms)[k]
               && schedule[k].outstanding == schedule[k].amount
               && schedule[k].Valid()
    ensures LedgerValid(loan, schedule)
  {
    if terms > 0 {
      SplitSumsToPrincipal(loan.amount, terms);
    }
    FreshScheduleTotals(Views(schedule), Split(loan.amount, terms));
  }

  /**
   * `repayLoan`: the payment is recorded first, and its `creating` hook debits
   * the loan by the whole payment (a payment above the loan's balance fails the
   * assertion and nothing happens). Then the installments that are not repaid
   * are walked in due order: each one the remainder covers is set to 0, the
   * first one it does not cover is lowered by the remainder and the walk stops.
   */
  method RepayLoan(loan: Loans.Loan, schedule: seq<SR.ScheduledRepayment>, amount: int,
                   currency: CurrencyCode, receivedAt: DateText)
    returns (r: Option<ReceivedRepayments.ReceivedRepayment>)
    requires loan.Valid() && InstallmentsOf(loan, schedule)
    modifies loan, schedule
    ensures loan.Valid()
    ensures r.Some? <==> amount <= old(loan.outstanding)
    // one record carrying the payment as given, even when nothing is left to allocate
    ensures r.Some? ==> r.value == ReceivedRepayments.ReceivedRepayment(loan.id, amount, currency, receivedAt)
    ensures r.None? ==> loan.outstanding == old(loan.outstanding) && loan.status == old(loan.status)
    ensures r.None? ==> Views(schedule) == old(Views(schedule))
    // the loan is debited by the full payment, not by what the installments absorbed
    ensures r.Some? && (amount == old(loan.outstanding) || old(loan.status) == Loans.Repaid) ==>
              loan.outstanding == 0 && loan.status == Loans.Repaid
    ensures r.Some? && amount != old(loan.outstanding) && old(loan.status) != Loans.Repaid ==>
              loan.outstanding == old(loan.outstanding) - amount && loan.status == old(loan.status)
    ensures r.Some? ==> Views(schedule) == RepaySchedule(old(Views(schedule)), amount)
    ensures old(LedgerValid(loan, schedule)) && 0 <= amount && r.Some? ==> LedgerValid(loan, schedule)
  {
    ghost var loanOutstanding, loanStatus := loan.outstanding, loan.status;
    r := ReceivedRepayments.Create(loan, amount, currency, receivedAt);
    if r.None? {
      return;
    }
    WalkInstallments(schedule, amount);
    if 0 <= amount && Consistent(loan.amount, loanOutstanding, loanStatus, old(Views(schedule))) {
      RepayKeepsLedger(loan.amount, loanOutstanding, loanStatus, old(Views(schedule)), amount);
    }
  }

  /**
   * The `foreach` of `repayLoan`: candidates are the installments not yet
   * repaid, in due order; `remainingAmount` is what is left of the payment.
   */
  method WalkInstallments(schedule: seq<SR.ScheduledRepayment>, amount: int)
    requires forall j, k :: 0 <= j < k < |schedule| ==> schedule[j] != schedule[k]
    modifies schedule
    ensures Views(schedule) == RepaySchedule(old(Views(schedule)), amount)
  {
    ghost var before := Views(schedule);
    ghost var after := RepaySchedule(before, amount);
    var remainingAmount := amount;
    var i := 0;
    while i < |schedule|
      invariant 0 <= i <= |schedule|
      invariant forall k :: 0 <= k < i ==> schedule[k].View() == after[k]
      invariant forall k :: i <= k < |schedule| ==> schedule[k].View() == before[k]
      invariant after[i..] == RepaySchedule(before[i..], remainingAmount)
    {
      var candidate := schedule[i];
      assert forall k :: 0 <= k < |schedule| && k != i ==> schedule[k] != candidate;
      ghost var step := Pay(before[i], remainingAmount);
      assert after[i] == step.0 && after[i + 1..] == if step.2 then before[i + 1..] else RepaySchedule(before[i + 1..], step.1) by {
        RepayUnfold(before, i, remainingAmount);
        assert after[i] == after[i..][0] && after[i + 1..] == after[i..][1..];
      }
      assert candidate.View() == before[i];
      var stop;
      remainingAmount, stop := PayCandidate(candidate, remainingAmount);
      assert candidate.View() == step.0 && remainingAmount == step.1 && stop == step.2;
      if stop {
        assert forall k :: i < k < |schedule| ==> after[k] == after[i + 1..][k - i - 1];
        break;
      }
      assert after[i + 1..] == RepaySchedule(before[i + 1..], remainingAmount);
      i := i + 1;
    }
    assert forall k :: 0 <= k < |schedule| ==> schedule[k].View() == after[k];
  }

  /**
   * One pass of the `foreach` body: a candidate the remainder covers is set to
   * 0 and the walk goes on with what is left; otherwise the candidate is
   * lowered by the remainder and the walk stops. Repaid installments are not
   * candidates and are passed over untouched.
   */
  method PayCandidate(candidate: SR.ScheduledRepayment, remainingAmount: int) returns (left: int, stop: bool)
    modifies candidate
    ensures (candidate.View(), left, stop) == Pay(old(candidate.View()), remainingAmount)
  {
    left, stop := remainingAmount, false;
    if candidate.status != SR.Repaid {
      if remainingAmount >= candidate.outstanding {
        left := remainingAmount - candidate.outstanding;
        candidate.AssignOutstanding(0);
      } else {
        candidate.AssignOutstanding(candidate.outstanding - remainingAmount);
        stop := true;
      }
    }
  }
}
