/**
 * The Loan record (app/Models/Loan.php): its attribute mutators, the
 * `repaid`/`updateRepaid` helpers and the `creating`/`updating` hooks.
 * Every Eloquent hook is an explicit call at the place where the source
 * would trigger it.
 */
module Loans {
  import opened Common

  datatype Status = Due | Repaid

  class Loan {
    const id: nat
    const userId: nat
    const amount: int
    const terms: int
    const currency: CurrencyCode
    const processedAt: DateText
    var outstanding: int
    var status: Status

    /** The loan's own invariant: never negative, and `repaid` exactly when nothing is owed. */
    ghost predicate Valid()
      reads this
    {
      0 <= outstanding && (status == Repaid <==> outstanding == 0)
    }

    /**
     * The bare allocation of a loan: attributes stored as given and the status
     * the column's default, `due`. Filling `outstanding_amount` runs the
     * mutator (a negative value fails, 0 marks the loan `repaid`); `Create`
     * below applies it, and that pair is what `new Loan([...])` does.
     */
    constructor (id: nat, userId: nat, amount: int, terms: int, currency: CurrencyCode, processedAt: DateText)
      ensures this.id == id && this.userId == userId && this.amount == amount && this.terms == terms
      ensures this.currency == currency && this.processedAt == processedAt
      ensures outstanding == amount && status == Due
    {
      this.id := id;
      this.userId := userId;
      this.amount := amount;
      this.terms := terms;
      this.currency := currency;
      this.processedAt := processedAt;
      outstanding := amount;
      status := Due;
    }

    /** `setStatusAttribute`: setting `repaid` also clears the outstanding amount. */
    method SetStatus(value: Status)
      modifies this
      ensures status == value
      ensures outstanding == if value == Repaid then 0 else old(outstanding)
    {
      if value == Repaid {
        outstanding := 0;
      }
      status := value;
    }

    /**
     * `setOutstandingAmountAttribute`: a negative value fails the assertion and
     * nothing is assigned (`ok` is false); zero also marks the loan repaid.
     */
    method SetOutstanding(value: int) returns (ok: bool)
      modifies this
      ensures ok <==> value >= 0
      ensures !ok ==> unchanged(this)
      ensures ok ==> outstanding == value
      ensures ok ==> status == if value == 0 then Repaid else old(status)
    {
      if value < 0 {
        return false;
      }
      ok := true;
      if value == 0 {
        SetStatus(Repaid);
      }
      outstanding := value;
    }

    /** `repaid()`: nothing is owed any more. */
    method MarkRepaid()
      modifies this
      ensures outstanding == 0 && status == Repaid
      ensures Valid()
    {
      var _ := SetOutstanding(0);
      SetStatus(Repaid);
    }

    /** `updateRepaid()`, also the body of the `updating` hook. */
    method UpdateRepaid()
      modifies this
      ensures old(outstanding) == 0 || old(status) == Repaid ==> outstanding == 0 && status == Repaid
      ensures old(outstanding) != 0 && old(status) != Repaid ==> unchanged(this)
      ensures old(outstanding) >= 0 ==> Valid()
    {
      if outstanding == 0 || status == Repaid {
        MarkRepaid();
      }
    }

    /**
     * `$loan->outstanding_amount = value; $loan->save();`: the mutator runs, and
     * `save()` runs the `updating` hook only when an attribute changed.
     * A loan once repaid stays repaid: a later positive value is cleared again.
     */
    method AssignOutstanding(value: int) returns (ok: bool)
      requires Valid()
      modifies this
      ensures Valid()
      ensures ok <==> value >= 0
      ensures !ok ==> unchanged(this)
      ensures ok && (value == 0 || old(status) == Repaid) ==> outstanding == 0 && status == Repaid
      ensures ok && value != 0 && old(status) != Repaid ==> outstanding == value && status == old(status)
      // re-assigning the current balance changes nothing
      ensures value == old(outstanding) ==> outstanding == old(outstanding) && status == old(status)
    {
      var wasOutstanding, wasStatus := outstanding, status;
      ok := SetOutstanding(value);
      if ok && (outstanding != wasOutstanding || status != wasStatus) {
        UpdateRepaid();
      }
    }
  }

  /**
   * `new Loan([...])` followed by the `creating` hook: the outstanding amount is
   * the one supplied, or the principal when none is; either way it goes through
   * the mutator, so a negative value fails the assertion and no loan is made.
   */
  method Create(id: nat, userId: nat, amount: int, terms: int, currency: CurrencyCode,
                processedAt: DateText, outstanding: Option<int>) returns (r: Option<Loan>)
    ensures r.Some? <==> outstanding.GetOr(amount) >= 0
    ensures r.Some? ==> fresh(r.value) && r.value.Valid()
    ensures r.Some? ==> r.value.id == id && r.value.userId == userId && r.value.amount == amount
    ensures r.Some? ==> r.value.terms == terms && r.value.currency == currency && r.value.processedAt == processedAt
    ensures r.Some? ==> r.value.outstanding == outstanding.GetOr(amount)
    ensures r.Some? ==> r.value.status == if outstanding.GetOr(amount) == 0 then Repaid else Due
  {
    var loan := new Loan(id, userId, amount, terms, currency, processedAt);
    var ok := loan.SetOutstanding(outstanding.GetOr(amount));
    if ok {
      r := Some(loan);
    } else {
      r := None;
    }
  }
}
