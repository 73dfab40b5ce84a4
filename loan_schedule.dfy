/**
 * The arithmetic of app/Services/LoanService.php, stated on values: how a
 * principal is split into installments (`createLoan`), how one payment walks
 * the installments earliest-due first (`repayLoan`), and the ledger invariant
 * that ties the loan's balance to its installments' balances.
 */
module LoanSchedule {
  import opened Common
  import Loans
  import SR = ScheduledRepayments

  type Installment = SR.Installment

  // ---------------------------------------------------------------------------
  // The schedule split
  // ---------------------------------------------------------------------------

  /**
   * The amount of installment `i` (counted from 1) of `terms`: the truncated
   * share, with the remainder added to the last one.
   */
  function InstallmentAmount(amount: int, terms: int, i: int): (r: int)
    requires terms > 0
    // every installment but the last is the principal's share, truncated toward zero
    ensures i != terms && amount >= 0 ==> 0 <= r && r * terms <= amount < r * terms + terms
    ensures i != terms && amount < 0 ==> r <= 0 && r * terms - terms < amount <= r * terms
    // the last one takes whatever the other `terms - 1` leave of the principal
    ensures i == terms ==> r == amount - (terms - 1) * IntDiv(amount, terms)
  {
    var termAmount := IntDiv(amount, terms);
    if i == terms then termAmount + Rem(amount, terms) else termAmount
  }

  /** The amounts of all installments in due order; no installments when `terms <= 0`. */
  function Split(amount: int, terms: int): (r: seq<int>)
    ensures |r| == Max(terms, 0)
    // all installments but the last are equal
    ensures forall k :: 0 <= k < |r| - 1 ==> r[k] == r[0]
    ensures terms > 0 ==> r[terms - 1] == amount - (terms - 1) * r[0]
    ensures terms == 1 ==> r == [amount]
  {
    if terms <= 0 then []
    else seq(terms, k requires 0 <= k < terms => InstallmentAmount(amount, terms, k + 1))
  }

  /** The installment amounts add up to exactly the principal: no rounding drift. */
  lemma SplitSumsToPrincipal(amount: int, terms: int)
    requires terms > 0
    ensures |Split(amount, terms)| == terms
    ensures Sum(Split(amount, terms)) == amount
  {
    var s := Split(amount, terms);
    var q, r := IntDiv(amount, terms), Rem(amount, terms);
    var init := s[..terms - 1];
    assert s == init + [q + r];
    SumSnoc(init, q + r);
    SumConstant(init, q);
    assert Sum(s) == (terms - 1) * q + q + r;
    assert (terms - 1) * q + q == terms * q;
  }

  /**
   * For a non-negative principal every installment is non-negative, the last
   * exceeds the others by less than `terms`, and with at least one unit per
   * term no installment is zero.
   */
  lemma SplitShares(amount: int, terms: int, k: int)
    requires 0 <= amount && 0 < terms && 0 <= k < terms
    ensures 0 <= Split(amount, terms)[k] <= Split(amount, terms)[terms - 1] < Split(amount, terms)[k] + terms
    ensures amount >= terms ==> Split(amount, terms)[k] > 0
  {
  }

  // ---------------------------------------------------------------------------
  // Balances and the ledger invariant
  // ---------------------------------------------------------------------------

  /** What is still owed across the installments. */
  function Outstanding(s: seq<Installment>): int {
    if s == [] then 0 else s[0].outstanding + Outstanding(s[1..])
  }

  /** The installments' original amounts added up. */
  function Principal(s: seq<Installment>): int {
    if s == [] then 0 else s[0].amount + Principal(s[1..])
  }

  /**
   * The state the engine keeps: the loan owes a non-negative balance, is
   * `repaid` exactly when it owes nothing, every installment is well formed,
   * the installments add up to the principal and their balances to the loan's.
   */
  predicate Consistent(principal: int, outstanding: int, status: Loans.Status, s: seq<Installment>) {
    && 0 <= outstanding
    && (status == Loans.Repaid <==> outstanding == 0)
    && (forall k :: 0 <= k < |s| ==> SR.WellFormed(s[k]))
    && Principal(s) == principal
    && Outstanding(s) == outstanding
  }

  lemma {:induction false} OutstandingWithinPrincipal(s: seq<Installment>)
    requires forall k :: 0 <= k < |s| ==> SR.WellFormed(s[k])
    ensures 0 <= Outstanding(s) <= Principal(s)
  {
    if s != [] {
      OutstandingWithinPrincipal(s[1..]);
    }
  }

  /** A consistent loan never owes more than its principal. */
  lemma ConsistentBounds(principal: int, outstanding: int, status: Loans.Status, s: seq<Installment>)
    requires Consistent(principal, outstanding, status, s)
    ensures 0 <= outstanding <= principal
  {
    OutstandingWithinPrincipal(s);
  }

  /** A freshly created schedule owes exactly its amounts. */
  lemma {:induction false} FreshScheduleTotals(s: seq<Installment>, amounts: seq<int>)
    requires |s| == |amounts|
    requires forall k :: 0 <= k < |s| ==> s[k].amount == amounts[k] && s[k].outstanding == amounts[k]
    ensures Principal(s) == Sum(amounts) && Outstanding(s) == Sum(amounts)
  {
    if s != [] {
      FreshScheduleTotals(s[1..], amounts[1..]);
    }
  }

  lemma {:induction false} PrincipalOfSameAmounts(s: seq<Installment>, t: seq<Installment>)
    requires |s| == |t|
    requires forall k :: 0 <= k < |s| ==> s[k].amount == t[k].amount
    ensures Principal(s) == Principal(t)
  {
    if s != [] {
      PrincipalOfSameAmounts(s[1..], t[1..]);
    }
  }

  // ---------------------------------------------------------------------------
  // Applying one payment
  // ---------------------------------------------------------------------------

  /**
   * The installments after one payment of `remaining`, walked in due order:
   * repaid installments are skipped, each one the remainder covers is set to
   * 0, and the first one it does not cover is lowered by the remainder, after
   * which the walk stops. Whatever is left after the last one is dropped.
   */
  function RepaySchedule(s: seq<Installment>, remaining: int): (r: seq<Installment>)
    ensures |r| == |s|
  {
    if s == [] then []
    else if s[0].status == SR.Repaid then [s[0]] + RepaySchedule(s[1..], remaining)
    else if remaining >= s[0].outstanding then
      [SR.AfterAssign(s[0], 0)] + RepaySchedule(s[1..], remaining - s[0].outstanding)
    else [SR.AfterAssign(s[0], s[0].outstanding - remaining)] + s[1..]
  }

  /** The first step of the walk: what becomes of the first installment, and of the rest. */
  lemma RepayFirst(s: seq<Installment>, remaining: int)
    requires s != []
    ensures s[0].status == SR.Repaid ==>
              && RepaySchedule(s, remaining)[0] == s[0]
              && RepaySchedule(s, remaining)[1..] == RepaySchedule(s[1..], remaining)
    ensures s[0].status != SR.Repaid && remaining >= s[0].outstanding ==>
              && RepaySchedule(s, remaining)[0] == SR.AfterAssign(s[0], 0)
              && RepaySchedule(s, remaining)[1..] == RepaySchedule(s[1..], remaining - s[0].outstanding)
    ensures s[0].status != SR.Repaid && remaining < s[0].outstanding ==>
              && RepaySchedule(s, remaining)[0] == SR.AfterAssign(s[0], s[0].outstanding - remaining)
              && RepaySchedule(s, remaining)[1..] == s[1..]
  {
  }

  /**
   * One pass of the walk over installment `x` with `remaining` left of the
   * payment: its new columns, what is left of the payment, and whether the
   * walk stops there.
   */
  function Pay(x: Installment, remaining: int): (r: (Installment, int, bool))
    ensures r.0.amount == x.amount
    // a repaid installment is not a candidate: passed over, payment untouched
    ensures x.status == SR.Repaid ==> r == (x, remaining, false)
    // the walk stops exactly at a candidate the remainder does not cover
    ensures r.2 <==> x.status != SR.Repaid && remaining < x.outstanding
    // a covered candidate is cleared and its balance comes off the remainder; assigning
    // 0 to a balance already 0 is no change, so no hook runs and the status stays
    ensures x.status != SR.Repaid && !r.2 ==>
              && r.0.outstanding == 0 && r.1 == remaining - x.outstanding
              && (if x.outstanding == 0 then r.0 == x else r.0.status == SR.Repaid)
    // an uncovered candidate is lowered by what is left; a well-formed one stays well formed
    ensures SR.WellFormed(x) && 0 <= remaining && r.2 ==>
              r.0.outstanding == x.outstanding - remaining && SR.WellFormed(r.0)
  {
    if x.status == SR.Repaid then (x, remaining, false)
    else if remaining >= x.outstanding then (SR.AfterAssign(x, 0), remaining - x.outstanding, false)
    else (SR.AfterAssign(x, x.outstanding - remaining), remaining, true)
  }

  /** The walk from position `i` on is one pass over `s[i]` followed by the rest of the walk, or by nothing. */
  lemma RepayUnfold(s: seq<Installment>, i: int, remaining: int)
    requires 0 <= i < |s|
    ensures RepaySchedule(s[i..], remaining)[0] == Pay(s[i], remaining).0
    ensures Pay(s[i], remaining).2 ==> RepaySchedule(s[i..], remaining)[1..] == s[i + 1..]
    ensures !Pay(s[i], remaining).2 ==>
              RepaySchedule(s[i..], remaining)[1..] == RepaySchedule(s[i + 1..], Pay(s[i], remaining).1)
  {
    assert s[i..][0] == s[i] && s[i..][1..] == s[i + 1..];
    RepayFirst(s[i..], remaining);
  }

  /** A payment keeps every installment's amount and never touches a repaid installment. */
  lemma {:induction false} RepayKeepsShape(s: seq<Installment>, remaining: int, k: int)
    requires 0 <= k < |s|
    ensures RepaySchedule(s, remaining)[k].amount == s[k].amount
    ensures s[k].status == SR.Repaid ==> RepaySchedule(s, remaining)[k] == s[k]
  {
    RepayFirst(s, remaining);
    if k > 0 {
      var r := RepaySchedule(s, remaining);
      assert r[k] == r[1..][k - 1] && s[k] == s[1..][k - 1];
      if s[0].status == SR.Repaid {
        RepayKeepsShape(s[1..], remaining, k - 1);
      } else if remaining >= s[0].outstanding {
        RepayKeepsShape(s[1..], remaining - s[0].outstanding, k - 1);
      }
    }
  }

  /** Balances are non-negative and a repaid installment owes nothing. */
  predicate Payable(s: seq<Installment>) {
    forall k :: 0 <= k < |s| ==> 0 <= s[k].outstanding && (s[k].status == SR.Repaid ==> s[k].outstanding == 0)
  }

  lemma PayableTail(s: seq<Installment>)
    requires s != [] && Payable(s)
    ensures Payable(s[1..])
  {
  }

  lemma WellFormedIsPayable(s: seq<Installment>)
    requires forall k :: 0 <= k < |s| ==> SR.WellFormed(s[k])
    ensures Payable(s)
  {
  }

  lemma {:induction false} OutstandingNonNegative(s: seq<Installment>)
    requires Payable(s)
    ensures Outstanding(s) >= 0
  {
    if s != [] {
      OutstandingNonNegative(s[1..]);
    }
  }

  /** The payment lowers the total owed by `min(payment, total owed)`: any excess is dropped. */
  lemma {:induction false} RepayAbsorbs(s: seq<Installment>, remaining: int)
    requires 0 <= remaining && Payable(s)
    ensures Outstanding(s) - Outstanding(RepaySchedule(s, remaining)) == Min(remaining, Outstanding(s))
  {
    if s != [] {
      var r := RepaySchedule(s, remaining);
      RepayFirst(s, remaining);
      PayableTail(s);
      OutstandingNonNegative(s[1..]);
      assert Outstanding(r) == r[0].outstanding + Outstanding(r[1..]);
      if s[0].status == SR.Repaid {
        RepayAbsorbs(s[1..], remaining);
      } else if remaining >= s[0].outstanding {
        assert r[0].outstanding == 0;
        RepayAbsorbs(s[1..], remaining - s[0].outstanding);
      } else {
        assert r[0].outstanding == s[0].outstanding - remaining;
      }
    }
  }

  /**
   * An independent description of the walk: installment `k` absorbs whatever
   * the payment has left once every earlier installment is paid in full, up to
   * its own balance.
   */
  lemma {:induction false} RepayClosedForm(s: seq<Installment>, remaining: int, k: int)
    requires 0 <= remaining && Payable(s) && 0 <= k < |s|
    ensures RepaySchedule(s, remaining)[k].outstanding
            == s[k].outstanding - Min(s[k].outstanding, Max(0, remaining - Outstanding(s[..k])))
  {
    var r := RepaySchedule(s, remaining);
    RepayFirst(s, remaining);
    if k > 0 {
      assert r[k] == r[1..][k - 1];
      assert s[..k][1..] == s[1..][..k - 1];
      assert Outstanding(s[..k]) == s[0].outstanding + Outstanding(s[1..][..k - 1]);
      assert s[1..][k - 1] == s[k];
      if s[0].status == SR.Repaid {
        RepayClosedForm(s[1..], remaining, k - 1);
      } else if remaining >= s[0].outstanding {
        RepayClosedForm(s[1..], remaining - s[0].outstanding, k - 1);
      } else {
        assert Payable(s[1..][..k - 1]);
        OutstandingNonNegative(s[1..][..k - 1]);
      }
    }
  }

  /**
   * Earliest due first: when an installment was lowered, every installment due
   * before it is now fully repaid.
   */
  lemma {:induction false} RepayEarliestFirst(s: seq<Installment>, remaining: int, j: int, k: int)
    requires Payable(s) && 0 <= k < j < |s|
    requires RepaySchedule(s, remaining)[j].outstanding < s[j].outstanding
    ensures RepaySchedule(s, remaining)[k].outstanding == 0
  {
    var r := RepaySchedule(s, remaining);
    RepayFirst(s, remaining);
    PayableTail(s);
    assert r[j] == r[1..][j - 1] && s[j] == s[1..][j - 1];
    if s[0].status == SR.Repaid {
      if k > 0 {
        assert r[k] == r[1..][k - 1];
        RepayEarliestFirst(s[1..], remaining, j - 1, k - 1);
      }
    } else if remaining >= s[0].outstanding {
      if k > 0 {
        assert r[k] == r[1..][k - 1];
        RepayEarliestFirst(s[1..], remaining - s[0].outstanding, j - 1, k - 1);
      }
    }
  }

  /**
   * The walk stops at the first installment it cannot cover: once an
   * installment that was not repaid still owes something, every later one is
   * left exactly as it was.
   */
  lemma {:induction false} RepayStopsAtShortfall(s: seq<Installment>, remaining: int, j: int, k: int)
    requires Payable(s) && 0 <= j < k < |s|
    requires s[j].status != SR.Repaid && RepaySchedule(s, remaining)[j].outstanding != 0
    ensures RepaySchedule(s, remaining)[k] == s[k]
  {
    var r := RepaySchedule(s, remaining);
    RepayFirst(s, remaining);
    assert r[k] == r[1..][k - 1] && s[k] == s[1..][k - 1];
    if j > 0 {
      assert r[j] == r[1..][j - 1] && s[j] == s[1..][j - 1];
      if s[0].status == SR.Repaid {
        RepayStopsAtShortfall(s[1..], remaining, j - 1, k - 1);
      } else if remaining >= s[0].outstanding {
        RepayStopsAtShortfall(s[1..], remaining - s[0].outstanding, j - 1, k - 1);
      }
    }
  }

  /** A payment covering everything owed repays every installment. */
  lemma {:induction false} RepayClearsWhenCovered(s: seq<Installment>, remaining: int, k: int)
    requires Payable(s) && Outstanding(s) <= remaining && 0 <= k < |s|
    ensures RepaySchedule(s, remaining)[k].outstanding == 0
  {
    var r := RepaySchedule(s, remaining);
    RepayFirst(s, remaining);
    OutstandingNonNegative(s[1..]);
    if k > 0 {
      assert r[k] == r[1..][k - 1];
    }
    if s[0].status == SR.Repaid {
      if k > 0 {
        RepayClearsWhenCovered(s[1..], remaining, k - 1);
      }
    } else if k > 0 {
      RepayClearsWhenCovered(s[1..], remaining - s[0].outstanding, k - 1);
    }
  }

  /** A non-negative payment keeps every installment within [0, amount] with the derived status. */
  lemma {:induction false} RepayKeepsWellFormed(s: seq<Installment>, remaining: int, k: int)
    requires 0 <= remaining && 0 <= k < |s|
    requires forall i :: 0 <= i < |s| ==> SR.WellFormed(s[i])
    ensures SR.WellFormed(RepaySchedule(s, remaining)[k])
  {
    var r := RepaySchedule(s, remaining);
    RepayFirst(s, remaining);
    if k > 0 {
      assert r[k] == r[1..][k - 1];
      if s[0].status == SR.Repaid {
        RepayKeepsWellFormed(s[1..], remaining, k - 1);
      } else if remaining >= s[0].outstanding {
        RepayKeepsWellFormed(s[1..], remaining - s[0].outstanding, k - 1);
      }
    }
  }

  /**
   * The ledger survives every non-negative payment the loan's assertion lets
   * through: a payment in [0, loan's balance] is absorbed in full by the
   * installments, so the loan's balance and theirs still agree.
   */
  lemma RepayKeepsLedger(principal: int, outstanding: int, status: Loans.Status, s: seq<Installment>, amount: int)
    requires Consistent(principal, outstanding, status, s)
    requires 0 <= amount <= outstanding
    ensures Outstanding(s) - Outstanding(RepaySchedule(s, amount)) == amount
    ensures Consistent(principal, outstanding - amount, if amount == outstanding then Loans.Repaid else status,
                       RepaySchedule(s, amount))
  {
    var r := RepaySchedule(s, amount);
    WellFormedIsPayable(s);
    RepayAbsorbs(s, amount);
    forall k | 0 <= k < |r|
      ensures SR.WellFormed(r[k]) && r[k].amount == s[k].amount
    {
      RepayKeepsWellFormed(s, amount, k);
      RepayKeepsShape(s, amount, k);
    }
    PrincipalOfSameAmounts(s, r);
  }

  /**
   * The bound on the payment is needed: the loan's assertion admits a negative
   * payment, which raises the first installment above its amount and breaks
   * the ledger.
   */
  lemma NegativePaymentBreaksLedger()
    ensures var s := [SR.Installment(333, 333, SR.Due), SR.Installment(333, 333, SR.Due), SR.Installment(334, 334, SR.Due)];
            && Consistent(1000, 1000, Loans.Due, s)
            && RepaySchedule(s, -10)[0] == SR.Installment(333, 343, SR.Due)
            && !Consistent(1000, 1010, Loans.Due, RepaySchedule(s, -10))
  {
    var s := [SR.Installment(333, 333, SR.Due), SR.Installment(333, 333, SR.Due), SR.Installment(334, 334, SR.Due)];
    assert s[1..] == [SR.Installment(333, 333, SR.Due), SR.Installment(334, 334, SR.Due)];
    assert s[1..][1..] == [SR.Installment(334, 334, SR.Due)];
    RepayFirst(s, -10);
  }

  /** The worked example: 1000 over 3 terms, then payments of 333, 500 and 167. */
  lemma ThreeTermExample()
    ensures Split(1000, 3) == [333, 333, 334]
    ensures var s0 := [SR.Installment(333, 333, SR.Due), SR.Installment(333, 333, SR.Due), SR.Installment(334, 334, SR.Due)];
            var s1 := RepaySchedule(s0, 333);
            var s2 := RepaySchedule(s1, 500);
            && s1 == [SR.Installment(333, 0, SR.Repaid), SR.Installment(333, 333, SR.Due), SR.Installment(334, 334, SR.Due)]
            && s2 == [SR.Installment(333, 0, SR.Repaid), SR.Installment(333, 0, SR.Repaid), SR.Installment(334, 167, SR.Partial)]
            && RepaySchedule(s2, 167) == [SR.Installment(333, 0, SR.Repaid), SR.Installment(333, 0, SR.Repaid), SR.Installment(334, 0, SR.Repaid)]
  {
    var s0 := [SR.Installment(333, 333, SR.Due), SR.Installment(333, 333, SR.Due), SR.Installment(334, 334, SR.Due)];
    assert s0[1..] == [SR.Installment(333, 333, SR.Due), SR.Installment(334, 334, SR.Due)];
    var s1 := [SR.Installment(333, 0, SR.Repaid), SR.Installment(333, 333, SR.Due), SR.Installment(334, 334, SR.Due)];
    assert s1[1..] == s0[1..];
    assert s1[1..][1..] == [SR.Installment(334, 334, SR.Due)];
    var s2 := [SR.Installment(333, 0, SR.Repaid), SR.Installment(333, 0, SR.Repaid), SR.Installment(334, 167, SR.Partial)];
    assert s2[1..] == [SR.Installment(333, 0, SR.Repaid), SR.Installment(334, 167, SR.Partial)];
    assert s2[1..][1..] == [SR.Installment(334, 167, SR.Partial)];
  }
}
