/**
 * The ReceivedRepayment record (app/Models/ReceivedRepayment.php): an
 * immutable record of one payment, whose `creating` hook debits the loan.
 */
module ReceivedRepayments {
  import opened Common
  import Loans

  /** The stored fields; a datatype value, so nothing can change them once made. */
  datatype ReceivedRepayment = ReceivedRepayment(loanId: nat, amount: int, currency: CurrencyCode, receivedAt: DateText)

  /**
   * `new ReceivedRepayment([...])->save()` with its `creating` hook: the loan is
   * refreshed and debited by the WHOLE payment, whatever the installments will
   * later absorb. A payment above the loan's balance fails the loan's
   * non-negative assertion, and then neither the record nor the debit happens.
   */
  method Create(loan: Loans.Loan, amount: int, currency: CurrencyCode, receivedAt: DateText)
    returns (r: Option<ReceivedRepayment>)
    requires loan.Valid()
    modifies loan
    ensures loan.Valid()
    ensures r.Some? <==> amount <= old(loan.outstanding)
    ensures r.Some? ==> r.value == ReceivedRepayment(loan.id, amount, currency, receivedAt)
    ensures r.None? ==> loan.outstanding == old(loan.outstanding) && loan.status == old(loan.status)
    // a payment equal to the balance, or any payment on a repaid loan, leaves it repaid at 0
    ensures r.Some? && (amount == old(loan.outstanding) || old(loan.status) == Loans.Repaid) ==>
              loan.outstanding == 0 && loan.status == Loans.Repaid
    ensures r.Some? && amount != old(loan.outstanding) && old(loan.status) != Loans.Repaid ==>
              loan.outstanding == old(loan.outstanding) - amount && loan.status == old(loan.status)
  {
    var received := ReceivedRepayment(loan.id, amount, currency, receivedAt);
    var ok := loan.AssignOutstanding(loan.outstanding - received.amount);
    if ok {
      r := Some(received);
    } else {
      r := None;
    }
  }
}
