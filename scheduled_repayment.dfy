/**
 * The ScheduledRepayment record (app/Models/ScheduledRepayment.php): one
 * installment of a loan. Unlike Loan it has no attribute mutators; its status
 * is derived only by the `creating` and `updating` hooks.
 */
module ScheduledRepayments {
  import opened Common
  import Loans

  datatype Status = Due | Partial | Repaid

  /** The columns of an installment that a repayment can change, as a value. */
  datatype Installment = Installment(amount: int, outstanding: int, status: Status)

  /** The status an installment should carry for a given balance. */
  function DerivedStatus(outstanding: int, amount: int): Status {
    if outstanding == 0 then Repaid
    else if outstanding < amount then Partial
    else Due
  }

  /** Balance within [0, amount] and a status that agrees with it. */
  predicate WellFormed(i: Installment) {
    0 <= i.outstanding <= i.amount && i.status == DerivedStatus(i.outstanding, i.amount)
  }

  /**
   * The effect of the `updating` hook: `updateRepaid()`, then `partial` for a
   * balance strictly between 0 and the amount.
   */
  function AfterUpdating(i: Installment): (r: Installment)
    ensures r.amount == i.amount
    // `repaid` is derived from a zero balance and is sticky
    ensures r.status == Repaid <==> i.outstanding == 0 || i.status == Repaid
    ensures r.status == Repaid ==> r.outstanding == 0
    ensures r.status != Repaid ==> r.outstanding == i.outstanding
    ensures r.status != Repaid && 0 < i.outstanding < i.amount ==> r.status == Partial
    // nothing resets an installment to `due`
    ensures r.status == Due ==> i.status == Due
    ensures 0 <= i.outstanding <= i.amount && (i.status == Due || i.outstanding < i.amount) ==> WellFormed(r)
  {
    var settled := if i.outstanding == 0 || i.status == Repaid then i.(outstanding := 0, status := Repaid) else i;
    if settled.outstanding < settled.amount && settled.outstanding > 0 then settled.(status := Partial) else settled
  }

  /**
   * `$installment->outstanding_amount = value; $installment->save();`: the
   * `updating` hook runs only when the balance actually changed.
   */
  function AfterAssign(i: Installment, value: int): (r: Installment)
    ensures r.amount == i.amount
    ensures value == i.outstanding ==> r == i
    ensures value != i.outstanding && i.status == Repaid ==> r.outstanding == 0 && r.status == Repaid
    // lowering a well-formed balance keeps it well formed and lands exactly on `value`
    ensures WellFormed(i) && 0 <= value <= i.outstanding ==> WellFormed(r) && r.outstanding == value
  {
    if value == i.outstanding then i else AfterUpdating(i.(outstanding := value))
  }

  class ScheduledRepayment {
    const loan: Loans.Loan
    const amount: int
    const currency: CurrencyCode
    /** Months after the loan's processed date at which this installment is due. */
    const dueMonth: nat
    var outstanding: int
    var status: Status

    function View(): Installment
      reads this
    {
      Installment(amount, outstanding, status)
    }

    ghost predicate Valid()
      reads this
    {
      WellFormed(View())
    }

    /** `new ScheduledRepayment([...])` with its attributes filled in. */
    constructor (loan: Loans.Loan, amount: int, currency: CurrencyCode, dueMonth: nat, outstanding: int, status: Status)
      ensures this.loan == loan && this.amount == amount && this.currency == currency && this.dueMonth == dueMonth
      ensures this.outstanding == outstanding && this.status == status
    {
      this.loan := loan;
      this.amount := amount;
      this.currency := currency;
      this.dueMonth := dueMonth;
      this.outstanding := outstanding;
      this.status := status;
    }

    /** `repaid()`: clears the balance and marks the installment repaid. */
    method MarkRepaid()
      modifies this
      ensures outstanding == 0 && status == Repaid
    {
      outstanding := 0;
      status := Repaid;
    }

    /** `updateRepaid()`: settles the installment when its balance is 0 or it is already repaid. */
    method UpdateRepaid()
      modifies this
      ensures old(outstanding) == 0 || old(status) == Repaid ==> outstanding == 0 && status == Repaid
      ensures old(outstanding) != 0 && old(status) != Repaid ==> unchanged(this)
    {
      if outstanding == 0 || status == Repaid {
        MarkRepaid();
      }
    }

    /** The `updating` hook. */
    method Updating()
      modifies this
      ensures View() == AfterUpdating(old(View()))
    {
      UpdateRepaid();
      if outstanding < amount && outstanding > 0 {
        status := Partial;
      }
    }

    /** Assigning the balance and saving: the hook runs only on a changed record. */
    method AssignOutstanding(value: int)
      modifies this
      ensures View() == AfterAssign(old(View()), value)
    {
      if value != outstanding {
        outstanding := value;
        Updating();
      }
    }
  }

  /**
   * `new ScheduledRepayment([...])->save()` with the `creating` hook: the
   * balance defaults to the amount, a zero balance or a `repaid` status settles
   * the installment, and unless the status is `due` the parent loan is debited
   * by `amount - outstanding`. A status never filled in is null in memory, and
   * null is not `due`, so an installment created without a status always takes
   * that branch. When the debit would make the loan negative, the loan's
   * assertion fails and nothing is created.
   */
  method Create(loan: Loans.Loan, amount: int, currency: CurrencyCode, dueMonth: nat,
                outstanding: Option<int>, status: Option<Status>) returns (r: Option<ScheduledRepayment>)
    requires loan.Valid()
    modifies loan
    ensures loan.Valid()
    ensures r.Some? ==> fresh(r.value) && r.value.loan == loan && r.value.amount == amount
    ensures r.Some? ==> r.value.currency == currency && r.value.dueMonth == dueMonth
    ensures var given := outstanding.GetOr(amount);
            var settles := given == 0 || status == Some(Repaid);
            r.Some? ==> (r.value.outstanding == (if settles then 0 else given)
                         && r.value.status == (if settles then Repaid else status.GetOr(Due)))
    ensures var given := outstanding.GetOr(amount);
            var settles := given == 0 || status == Some(Repaid);
            var debit := amount - (if settles then 0 else given);
            var adjusts := settles || status != Some(Due);
            && (r.Some? <==> !adjusts || debit <= old(loan.outstanding))
            && (r.None? || !adjusts ==> loan.outstanding == old(loan.outstanding) && loan.status == old(loan.status))
            && (r.Some? && adjusts && (debit == old(loan.outstanding) || old(loan.status) == Loans.Repaid) ==>
                  loan.outstanding == 0 && loan.status == Loans.Repaid)
            && (r.Some? && adjusts && debit != old(loan.outstanding) && old(loan.status) != Loans.Repaid ==>
                  loan.outstanding == old(loan.outstanding) - debit && loan.status == old(loan.status))
    // with the default balance (and no `repaid` status) the debit is zero: creation leaves the loan alone
    ensures outstanding.None? && status != Some(Repaid) ==>
              r.Some? && loan.outstanding == old(loan.outstanding) && loan.status == old(loan.status)
  {
    var s := new ScheduledRepayment(loan, amount, currency, dueMonth, outstanding.GetOr(amount), status.GetOr(Due));
    s.UpdateRepaid();
    if s.status != Due || status.None? {
      var ok := loan.AssignOutstanding(loan.outstanding - (s.amount - s.outstanding));
      if !ok {
        return None;
      }
    }
    r := Some(s);
  }
}
