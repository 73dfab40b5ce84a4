# Loan repayment engine — Dafny model

This project models the core of a small loan-servicing backend:

- **Loan.** A loan is created for a principal. It is split into `terms` monthly scheduled repayments (installments). It owes an outstanding amount, and its status is `due` or `repaid`.
- **Installment.** Each installment has an amount, an outstanding amount and a status: `due`, `partial` or `repaid`.
- **Repayment.** A payment is first recorded as a received repayment. Recording it debits the loan. The payment is then spread over the installments that are not yet repaid, earliest due first.

The model follows the source's own structure:

- `Loans` (`loan.dfy`) is the Loan record. It holds its attribute mutators (`SetStatus`, `SetOutstanding`), the `repaid`/`updateRepaid` helpers and its `creating`/`updating` hooks. It is a class whose `outstanding` and `status` fields are updated in place.
- `ScheduledRepayments` (`scheduled_repayment.dfy`) is the installment record, also a class. Its hooks are specified by pure functions on a value view (`Installment`).
- `ReceivedRepayments` (`received_repayment.dfy`) is the received-payment record and its `creating` hook. The hook debits the loan.
- `LoanSchedule` (`loan_schedule.dfy`) is the arithmetic of the service, stated on values, with its lemmas:
  - the split of the principal into installments;
  - one payment walking the schedule;
  - the ledger invariant tying the loan's balance to its installments'.
- `LoanService` (`loan_service.dfy`) holds `createLoan` and `repayLoan` as methods over the objects. Each method is proved against the functions of `LoanSchedule`.
- `Common` (`common.dfy`) holds `Option`, sums, and PHP's truncating `intdiv` and `%`.

Each Eloquent hook is an explicit call at the point where `save()` would trigger it. `save()` on an existing record runs its `updating` hook only when an attribute actually changed, and the model keeps that dirty check. A failing `assert($value >= 0)` in the Loan's outstanding-amount mutator is an error path: the operation returns `None` and nothing changes.

One might expect the loan to be debited by what the installments absorb, and an overpayment to repay the loan and drop the excess. The code does otherwise, and the model follows the code:

- **Debit by the full payment.** The `creating` hook of a received repayment debits the loan by the WHOLE payment. The loan is not debited by what the installments absorbed.
- **No overpayment.** A payment larger than the loan's balance drives the balance negative. The loan's assertion then fails, so `RepayLoan` returns `None` and no payment is recorded.
  - The loan is not repaid with the excess silently dropped.
  - `RepayAbsorbs` still shows that the installment walk alone drops any excess.
  - `RepayKeepsLedger` shows that, for every non-negative payment the assertion lets through (0 <= amount <= balance), the loan and its installments stay in agreement.
- **Installment creation does not debit the loan.** A newly built installment has a null status in memory, and null is not `due`. So its `creating` hook always takes the branch that adjusts the loan. The adjustment is `amount - outstanding`, which is 0 for a fresh installment. `ScheduledRepayments.Create` states this.

## Model

| member | source | states |
|---|---|---|
| `Common.IntDiv` | app/Services/LoanService.php:36 | PHP `intdiv` truncates toward zero. For a non-negative dividend the quotient is the largest `q >= 0` with `q * b <= a`. For a negative one it is the mirror image, `q <= 0` with `a` in `(q*b - b, q*b]`. |
| `Common.Rem` | app/Services/LoanService.php:37 | PHP `%`: `IntDiv(a, b) * b + r == a`. The remainder takes the sign of the dividend and is less than `b` in magnitude. |
| `Loans.Loan.constructor` | app/Services/LoanService.php:26-33 | The bare allocation: the given attributes, a balance equal to the principal, and the column default `due`. The outstanding-amount mutator that filling the attributes runs is applied by `Loans.Create`; together they are `new Loan([...])`. |
| `Loans.Loan.SetStatus` | app/Models/Loan.php:42-47 | The status becomes the value. Setting `repaid` also zeroes the outstanding amount; any other status leaves it alone. |
| `Loans.Loan.SetOutstanding` | app/Models/Loan.php:49-55 | Succeeds iff the value is non-negative. On failure nothing changes. On success the balance is the value, and a zero value marks the loan `repaid`. |
| `Loans.Loan.MarkRepaid` | app/Models/Loan.php:21-24 | Afterwards the loan owes 0, is `repaid` and satisfies its invariant. |
| `Loans.Loan.UpdateRepaid` | app/Models/Loan.php:26-30 | A zero balance or a `repaid` status settles the loan at 0/`repaid`. Otherwise nothing changes. |
| `Loans.Loan.AssignOutstanding` | app/Models/Loan.php:37-39 | Assigning and saving keeps the invariant (`repaid` iff 0, never negative) and fails iff the value is negative. `repaid` is sticky. Re-assigning the current balance changes nothing. |
| `Loans.Create` | app/Models/Loan.php:34-36 | Creation succeeds iff the given balance (default: the principal) is non-negative. The loan then owes exactly that and is `repaid` iff it is 0. |
| `ScheduledRepayments.AfterUpdating` | app/Models/ScheduledRepayment.php:39-45 | The `updating` hook keeps the amount and makes `repaid` sticky and equivalent to a zero balance (or an already repaid record). A balance strictly inside (0, amount) becomes `partial`. Nothing returns to `due`. A well-formed input stays well formed. |
| `ScheduledRepayments.AfterAssign` | app/Services/LoanService.php:76-80 | Assigning the current balance changes nothing. A repaid installment stays at 0. Lowering a well-formed balance to any value in [0, outstanding] lands exactly on it and keeps the installment well formed. |
| `ScheduledRepayments.ScheduledRepayment.constructor` | app/Services/LoanService.php:38-43 | A new installment carries the given loan, amount, currency, due offset, balance and status. |
| `ScheduledRepayments.ScheduledRepayment.MarkRepaid` | app/Models/ScheduledRepayment.php:14-17 | Afterwards the installment owes 0 and is `repaid`. |
| `ScheduledRepayments.ScheduledRepayment.UpdateRepaid` | app/Models/ScheduledRepayment.php:19-23 | A zero balance or a `repaid` status settles the installment. Otherwise nothing changes. |
| `ScheduledRepayments.ScheduledRepayment.Updating` | app/Models/ScheduledRepayment.php:39-45 | The record's new columns are `AfterUpdating` of its old ones. |
| `ScheduledRepayments.ScheduledRepayment.AssignOutstanding` | app/Services/LoanService.php:76-80 | The record's new columns are `AfterAssign` of its old ones, so the hook runs only on a change. |
| `ScheduledRepayments.Create` | app/Models/ScheduledRepayment.php:27-38 | The balance defaults to the amount. A zero balance or `repaid` status settles it. Unless the status is `due`, the loan is debited by `amount - outstanding`, and creation fails iff that debit exceeds the loan's balance. With the default balance the loan is untouched. |
| `ReceivedRepayments.Create` | app/Models/ReceivedRepayment.php:47-51 | The record is made iff the payment is at most the loan's balance. The loan is then debited by the full payment (0/`repaid` when it was repaid or the payment equals the balance). On failure the loan is unchanged. |
| `LoanSchedule.InstallmentAmount` | app/Services/LoanService.php:36-37 | Every installment but the last is the principal's share truncated toward zero, bracketed between multiples of `terms` for either sign. The last is what the other `terms - 1` shares leave of the principal. |
| `LoanSchedule.Split` | app/Services/LoanService.php:35-37 | There are `max(terms, 0)` amounts, so none for `terms <= 0`. All but the last are equal, the last is the principal minus the others, and one term gives the whole principal. |
| `LoanSchedule.SplitSumsToPrincipal` | app/Services/LoanService.php:35-37 | There are `terms` installments, and their amounts add up to exactly the principal. |
| `LoanSchedule.SplitShares` | app/Services/LoanService.php:36-37 | For a non-negative principal every share is non-negative. The last exceeds any other by less than `terms`. With at least one unit per term none is 0. |
| `LoanSchedule.OutstandingWithinPrincipal` | app/Models/ScheduledRepayment.php:39-45 | Over well-formed installments the total owed lies between 0 and the total of the amounts. |
| `LoanSchedule.ConsistentBounds` | app/Models/Loan.php:49-55 | Under the ledger invariant the loan's balance lies between 0 and its principal. |
| `LoanSchedule.FreshScheduleTotals` | app/Services/LoanService.php:35-45 | A freshly created schedule owes exactly its amounts, and both totals are their sum. |
| `LoanSchedule.RepaySchedule` | app/Services/LoanService.php:68-83 | The walk of one payment over the installments, as a value. It keeps the schedule's length; what it does to each installment is stated by the lemmas below. |
| `LoanSchedule.Pay` | app/Services/LoanService.php:74-82 | One pass over a candidate. A repaid installment is passed over. The walk stops exactly when the remainder does not cover the balance, and then the balance is lowered by the remainder and stays well formed. A covered candidate ends at 0 and its balance comes off the remainder; it is marked `repaid` unless it already owed 0, in which case no hook runs. |
| `LoanSchedule.RepayKeepsShape` | app/Services/LoanService.php:68-83 | A payment keeps every installment's amount. An installment already repaid is not a candidate and is left exactly as it was. |
| `LoanSchedule.RepayAbsorbs` | app/Services/LoanService.php:71-83 | The payment lowers the total owed by exactly `min(payment, total owed)`. |
| `LoanSchedule.RepayClosedForm` | app/Services/LoanService.php:71-83 | An independent description: installment `k` absorbs what is left of the payment after all earlier balances, capped by its own balance. |
| `LoanSchedule.RepayEarliestFirst` | app/Services/LoanService.php:68-83 | If an installment was lowered, every installment due before it now owes 0. |
| `LoanSchedule.RepayStopsAtShortfall` | app/Services/LoanService.php:78-82 | After the first unrepaid installment left owing something, every later installment is exactly as before. |
| `LoanSchedule.RepayClearsWhenCovered` | app/Services/LoanService.php:72-77 | A payment of at least the total owed repays every installment. |
| `LoanSchedule.RepayKeepsWellFormed` | app/Services/LoanService.php:72-82 | A non-negative payment keeps every installment within [0, amount], with the status its balance calls for. |
| `LoanSchedule.RepayKeepsLedger` | app/Services/LoanService.php:61-83 | A payment of at most the loan's balance is absorbed in full by the installments. The ledger invariant then holds again at the loan's new balance. |
| `LoanSchedule.NegativePaymentBreaksLedger` | app/Services/LoanService.php:78-80 | A counterexample to dropping the bound on the payment. A payment of -10 passes the loan's assertion on a fresh 1000/3 loan, but it raises the first installment to 343 against its amount of 333, and the ledger no longer holds. |
| `LoanSchedule.ThreeTermExample` | app/Services/LoanService.php:35-45 | 1000 over 3 terms is 333, 333, 334. Payments of 333, 500 and 167 go repaid / repaid+partial(167) / all repaid. |
| `LoanService.CreateLoan` | app/Services/LoanService.php:23-47 | Succeeds iff the principal is non-negative. It makes `max(terms, 0)` fresh, well-formed installments of the split amounts, due 1..terms months out, and the loan owes its principal. The ledger invariant holds whenever installments exist (or the principal is 0). |
| `LoanService.FreshLedger` | app/Services/LoanService.php:26-45 | A loan that owes its principal, over installments of the split amounts each owing its amount, satisfies the ledger invariant. |
| `LoanService.RepayLoan` | app/Services/LoanService.php:59-85 | Records the payment iff it is at most the loan's balance. It debits the loan by the full payment, and the installments become `RepaySchedule` of their old values. On failure nothing changes. A non-negative payment preserves the ledger invariant. |
| `LoanService.WalkInstallments` | app/Services/LoanService.php:68-83 | The `foreach` over the candidates leaves the installments exactly at `RepaySchedule` of their old values. |
| `LoanService.PayCandidate` | app/Services/LoanService.php:73-82 | One pass of the loop body: the candidate's new columns, what is left of the payment and whether the loop stops are exactly `LoanSchedule.Pay` of its old columns. |

## Left out

- Persistence, `refresh()`/`load()` and the query builder are left out. A loan's installments are a sequence of objects held in due order. The query "status not repaid, ordered by due date" is the walk skipping repaid installments.
- Due dates are the month offset `i` after the processed date. Calendar arithmetic (`strtotime("+i month")`) and date formatting are not modelled.
- Transactions, concurrent repayments and the stale `$loan` instance a caller still holds after the hooks reload the loan are not modelled.
- Users and currency codes are carried as plain values and never validated, as in the source. The received-repayment `status` column is fillable but never written by the source, and is not modelled.
- The database default of the loans' `status` column is not part of this model. A new loan is taken to start `due`, and a loan made with a zero principal is `repaid` at once.
- The database default of the `scheduled_repayments.status` column is not part of this model either. `createLoan` never writes it, and `ScheduledRepayments.Create` takes it to be `due`, so every fresh installment is a repayment candidate. Were the default NULL, the query's `status <> 'repaid'` would select no fresh installment and a repayment would allocate nothing; that case is not modelled.
- Integer width is not modelled. PHP's 64-bit integers overflow to floats and the database columns have fixed widths, while Dafny's `int` is unbounded.
- PHP assertions can be disabled in production, and then a negative balance would be stored. The model always treats a failing assertion as an error that changes nothing.
- A negative payment is not rejected by the source. It raises the balance of a loan that is not repaid (a repaid loan stays at 0/`repaid`), and it raises the first unrepaid installment's balance, possibly above its amount. `RepayLoan` models that behaviour as written, but `RepayKeepsLedger`, `RepayKeepsWellFormed`, `RepayAbsorbs` and `RepayClosedForm` cover only non-negative payments, and such a payment can break the ledger.
- A loan created with `terms <= 0` has no installments, so its ledger invariant does not hold unless the principal is 0. `CreateLoan` therefore states the invariant only for `terms > 0` or a zero principal.
- Framework traits (`HasFactory`, `Notifiable`), table names, fillable lists and the relations' foreign keys are not modelled.
