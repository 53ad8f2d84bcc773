/** Every entry point keeps every stored record in order. */
module LoanInvariant {
  import opened LoanTypes
  import opened Accrual
  import opened LoanBook

  lemma WithLoanOk(s: State, a: Address, l: Loan)
    requires s.Ok() && LoanOk(l) && l.start <= s.now && l.lastAccrued <= Max(l.due, s.now)
    ensures s.WithLoan(a, l).Ok()
  {
    var t := s.WithLoan(a, l);
    forall b <- t.loans ensures LoanOk(t.loans[b]) && t.loans[b].start <= t.now
                                && t.loans[b].lastAccrued <= Max(t.loans[b].due, t.now) {
      if b != a { assert b in s.loans && t.loans[b] == s.loans[b]; }
    }
  }

  lemma LoanOfOk(s: State, a: Address)
    requires s.Ok()
    ensures LoanOk(s.LoanOf(a)) && s.LoanOf(a).start <= s.now
            && s.LoanOf(a).lastAccrued <= Max(s.LoanOf(a).due, s.now)
            && 0 <= s.RateOf(a)
  {
  }

  lemma OfferOk(s: State, a: Address)
    requires s.Ok() && a in s.offers
    ensures 1 <= s.offers[a].tenorDays && 1 <= s.offers[a].feeBps
  {
  }

  /** Materializing accrual charges, moves the anchor to now, and touches nothing else. */
  lemma MaterializedOk(s: State, a: Address)
    requires s.Ok() && s.LoanOf(a).active && Materialized(s, a).Ok?
    ensures var l, m := s.LoanOf(a), Materialized(s, a).value;
            && m == l.(amountDue := m.amountDue, lastAccrued := Max(l.lastAccrued, s.now))
            && l.amountDue <= m.amountDue && LoanOk(m)
  {
    LoanOfOk(s, a);
  }

  /** A payment either closes the loan or lowers it by what was paid, interest first. */
  lemma PaymentEffect(s: State, a: Address, paid: i128)
    requires s.Ok() && ApplyPayment(s, a, paid).Ok?
    ensures s.LoanOf(a).active && Materialized(s, a).Ok? && 0 < paid
    ensures var (t, receipt), l := ApplyPayment(s, a, paid).value, Materialized(s, a).value;
            && receipt.principalPaid + receipt.interestPaid == paid
            && (paid >= l.amountDue ==>
                  t.LoanOf(a) == ZERO_LOAN && receipt.principalPaid == l.principal && receipt.remaining == 0)
            && (paid < l.amountDue ==>
                  && !l.defaulted && receipt.interestPaid == Min(paid, l.amountDue - l.principal)
                  && t.LoanOf(a) == l.(amountDue := receipt.remaining, principal := l.principal - receipt.principalPaid)
                  && receipt.remaining == l.amountDue - paid)
  {
    hide State.Ok, MaterializedAt;
  }

  lemma OpenLoanOk(s: State, a: Address, principal: i128, tenorDays: u32, feeBps: u32)
    requires s.Ok() && OpenLoan(s, a, principal, tenorDays, feeBps).Ok?
    ensures OpenLoan(s, a, principal, tenorDays, feeBps).value.Ok()
  {
    WithLoanOk(s.(offers := s.offers - {a}), a, FreshLoan(s.now, s.grace, principal, tenorDays, feeBps));
  }

  lemma FinishCloseOk(s: State, a: Address, start: u64, tenorDays: u32)
    requires s.Ok() && FinishClose(s, a, start, tenorDays).Ok?
    ensures FinishClose(s, a, start, tenorDays).value.Ok()
  {
    WithLoanOk(s, a, ZERO_LOAN);
  }

  lemma AccrueLateOk(s: State, a: Address)
    requires s.Ok() && AccrueLate(s, a).Ok?
    ensures AccrueLate(s, a).value.Ok()
  {
    if s.LoanOf(a).active {
      MaterializedOk(s, a);
      WithLoanOk(s, a, Materialized(s, a).value);
    }
  }

  lemma ApplyPaymentOk(s: State, a: Address, paid: i128)
    requires s.Ok() && ApplyPayment(s, a, paid).Ok?
    ensures ApplyPayment(s, a, paid).value.0.Ok()
  {
    LoanOfOk(s, a);
    PaymentEffect(s, a, paid);
    MaterializedOk(s, a);
    hide State.Ok, MaterializedAt;
    var l := Materialized(s, a).value;
    if paid >= l.amountDue {
      FinishCloseOk(s, a, l.start, l.tenorDays);
    } else {
      WithLoanOk(s, a, ApplyPayment(s, a, paid).value.0.LoanOf(a));
    }
  }

  lemma MarkDefaultOk(s: State, a: Address)
    requires s.Ok() && MarkDefault(s, a).Ok?
    ensures MarkDefault(s, a).value.Ok()
  {
    LoanOfOk(s, a);
    WithLoanOk(s, a, s.LoanOf(a).(defaulted := true));
  }

  lemma CloseLoanOk(s: State, a: Address, paid: i128)
    requires s.Ok() && CloseLoan(s, a, paid).Ok?
    ensures CloseLoan(s, a, paid).value.Ok()
  {
    var l := AccruedLoan(s, a).value;
    FinishCloseOk(s, a, l.start, l.tenorDays);
  }

  lemma LoanCallOk(s: State, c: Call)
    requires s.Ok() && LoanCall(c) && TryLoanCall(s, c).Ok?
    ensures TryLoanCall(s, c).value.Ok()
  {
    hide State.Ok;
    match c
    case CallOpenLoan(a, principal, tenorDays, feeBps) => OpenLoanOk(s, a, principal, tenorDays, feeBps);
    case CallCloseLoan(a, paid) => CloseLoanOk(s, a, paid);
    case CallApplyPayment(a, paid) => ApplyPaymentOk(s, a, paid);
    case CallAccrueLate(a) => AccrueLateOk(s, a);
    case CallMarkDefault(a) => MarkDefaultOk(s, a);
  }

  /** The record invariant survives every call and every passage of time. */
  lemma StepOk(s: State, c: Call)
    requires s.Ok()
    ensures Step(s, c).Ok()
  {
    if LoanCall(c) {
      hide State.Ok;
      if TryLoanCall(s, c).Ok? { LoanCallOk(s, c); }
    }
  }

  /** Time never moves back, and only `TimePasses` moves it. */
  lemma StepNow(s: State, c: Call)
    requires s.Ok()
    ensures s.now <= Step(s, c).now && (!c.TimePasses? ==> Step(s, c).now == s.now)
  {
    hide State.Ok, TryLoanCall;
  }
}
