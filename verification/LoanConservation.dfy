/** No unit of principal or interest is created or lost, whatever the borrowers and the operator do. */
module LoanConservation {
  import opened LoanTypes
  import opened Accrual
  import opened LoanBook
  import opened LoanInvariant
  import opened LoanRuns

  /** The books of a loan before and after agree up to a flow, and nothing in the flow is negative. */
  ghost predicate Balanced(l: Loan, m: Loan, f: Flow) {
    && m.principal == l.principal + f.lent - f.principalPaid
    && m.amountDue == l.amountDue + f.lent + f.interest + f.late - f.principalPaid - f.interestPaid + f.excess
    && 0 <= f.lent && 0 <= f.interest && 0 <= f.late
    && 0 <= f.principalPaid && 0 <= f.interestPaid && 0 <= f.excess
  }

  lemma OpenBalances(s: State, a: Address, principal: i128, tenorDays: u32, feeBps: u32)
    requires s.Ok() && OpenLoan(s, a, principal, tenorDays, feeBps).Ok?
    ensures Balanced(s.LoanOf(a), OpenLoan(s, a, principal, tenorDays, feeBps).value.LoanOf(a),
                     OpenFlow(s, a, principal, tenorDays, feeBps))
  {
    OfferOk(s, a);
    LoanOfOk(s, a);
    OpeningFeeNonNegative(principal, feeBps, tenorDays);
  }

  lemma ChargeBalances(s: State, a: Address)
    requires s.Ok() && s.LoanOf(a).active && AccruedLoan(s, a).Ok?
    ensures var f := ChargeNow(s, a);
            && AccruedLoan(s, a).value.amountDue == s.LoanOf(a).amountDue + f.interest + f.late
            && 0 <= f.interest && 0 <= f.late
  {
    LoanOfOk(s, a);
  }

  lemma CloseBalances(s: State, a: Address, paid: i128)
    requires s.Ok() && CloseLoan(s, a, paid).Ok?
    ensures Balanced(s.LoanOf(a), CloseLoan(s, a, paid).value.LoanOf(a), CloseFlow(s, a, paid))
  {
    LoanOfOk(s, a);
    ChargeBalances(s, a);
  }

  lemma PaymentBalances(s: State, a: Address, paid: i128)
    requires s.Ok() && ApplyPayment(s, a, paid).Ok?
    ensures Balanced(s.LoanOf(a), ApplyPayment(s, a, paid).value.0.LoanOf(a), PaymentFlow(s, a, paid))
  {
    PaymentEffect(s, a, paid);
    ChargeBalances(s, a);
    MaterializedOk(s, a);
    hide State.Ok, ApplyPayment, AccrueLoan, MaterializedAt, Accrued, WithInterest;
  }

  lemma AccrueBalances(s: State, a: Address)
    requires s.Ok() && AccrueLate(s, a).Ok?
    ensures Balanced(s.LoanOf(a), AccrueLate(s, a).value.LoanOf(a), AccrueFlow(s, a))
  {
    if s.LoanOf(a).active {
      ChargeBalances(s, a);
      MaterializedOk(s, a);
    }
  }

  lemma DefaultBalances(s: State, a: Address)
    requires s.Ok() && MarkDefault(s, a).Ok?
    ensures MarkDefault(s, a).value.LoanOf(a) == s.LoanOf(a).(defaulted := true)
    ensures Balanced(s.LoanOf(a), MarkDefault(s, a).value.LoanOf(a), NO_FLOW)
  {
    hide State.Ok;
  }

  lemma LoanCallBalances(s: State, c: Call)
    requires s.Ok() && LoanCall(c) && TryLoanCall(s, c).Ok?
    ensures Balanced(s.LoanOf(c.a), TryLoanCall(s, c).value.LoanOf(c.a), FlowOf(s, c, c.a))
  {
    hide State.Ok, OpenLoan, CloseLoan, ApplyPayment, AccrueLate, MarkDefault;
    hide OpenFlow, CloseFlow, PaymentFlow, AccrueFlow, Balanced;
    match c
    case CallOpenLoan(a, principal, tenorDays, feeBps) => OpenBalances(s, a, principal, tenorDays, feeBps);
    case CallApplyPayment(a, paid) => PaymentBalances(s, a, paid);
    case CallCloseLoan(a, paid) => CloseBalances(s, a, paid);
    case CallAccrueLate(a) => AccrueBalances(s, a);
    case CallMarkDefault(a) => DefaultBalances(s, a);
  }

  /** One call moves a borrower's books by exactly its flow. */
  lemma StepBalances(s: State, c: Call, a: Address)
    requires s.Ok()
    ensures Balanced(s.LoanOf(a), Step(s, c).LoanOf(a), FlowOf(s, c, a))
  {
    hide State.Ok, TryLoanCall;
    if !Touches(c, a) {
      UntouchedLoan(s, c, a);
    } else if TryLoanCall(s, c).Ok? {
      hide FlowOf, Balanced;
      LoanCallBalances(s, c);
    }
  }

  function Flows(s: State, calls: seq<Call>, a: Address): Flow
    requires s.Ok()
    decreases |calls|
  {
    if calls == [] then NO_FLOW
    else
      StepOk(s, calls[0]);
      FlowOf(s, calls[0], a).Plus(Flows(Step(s, calls[0]), calls[1..], a))
  }

  /**
   * Over any run, a borrower's principal is what was opened less what was repaid, and the balance is that
   * plus every fee charged less every payment; whatever was paid beyond the balance is accounted for too.
   */
  lemma {:induction false} RunBalances(s: State, calls: seq<Call>, a: Address)
    requires s.Ok()
    ensures Balanced(s.LoanOf(a), Run(s, calls).LoanOf(a), Flows(s, calls, a))
    decreases |calls|
  {
    hide State.Ok, Step, FlowOf;
    if calls != [] {
      StepOk(s, calls[0]);
      StepBalances(s, calls[0], a);
      RunBalances(Step(s, calls[0]), calls[1..], a);
    }
  }

  /** While a loan lives its terms never change and its anchor never moves back. */
  lemma LivingLoan(s: State, c: Call, a: Address)
    requires s.Ok() && s.LoanOf(a).active && Step(s, c).LoanOf(a).active
    ensures var l, m := s.LoanOf(a), Step(s, c).LoanOf(a);
            && l.lastAccrued <= m.lastAccrued && (l.defaulted ==> m.defaulted)
            && m == l.(principal := m.principal, amountDue := m.amountDue, lastAccrued := m.lastAccrued,
                       defaulted := m.defaulted)
  {
    hide State.Ok, OpenLoan, CloseLoan, ApplyPayment, MarkDefault;
    if !Touches(c, a) {
      UntouchedLoan(s, c, a);
    } else if TryLoanCall(s, c).Ok? {
      match c
      case CallOpenLoan(_, principal, tenorDays, feeBps) => OpenNeedsNoLoan(s, a, principal, tenorDays, feeBps);
      case CallCloseLoan(_, paid) => CloseLeavesNoLoan(s, a, paid);
      case CallApplyPayment(_, paid) => PaymentEffect(s, a, paid); MaterializedOk(s, a);
      case CallAccrueLate(_) => MaterializedOk(s, a);
      case CallMarkDefault(_) => DefaultBalances(s, a);
    }
  }

  lemma OpenNeedsNoLoan(s: State, a: Address, principal: i128, tenorDays: u32, feeBps: u32)
    requires s.Ok() && OpenLoan(s, a, principal, tenorDays, feeBps).Ok?
    ensures !s.LoanOf(a).active
  {
    hide State.Ok;
  }

  lemma CloseLeavesNoLoan(s: State, a: Address, paid: i128)
    requires s.Ok() && CloseLoan(s, a, paid).Ok?
    ensures CloseLoan(s, a, paid).value.LoanOf(a) == ZERO_LOAN
  {
    hide State.Ok;
  }

  // ---------------------------------------------------------------- across all borrowers

  ghost function Outstanding(loans: map<Address, Loan>): int
    decreases |loans|
  {
    if loans == map[] then 0
    else
      var a :| a in loans;
      loans[a].principal + Outstanding(loans - {a})
  }

  lemma {:induction false} OutstandingWithout(loans: map<Address, Loan>, a: Address)
    requires a in loans
    ensures Outstanding(loans) == loans[a].principal + Outstanding(loans - {a})
    decreases |loans|
  {
    var b :| b in loans && Outstanding(loans) == loans[b].principal + Outstanding(loans - {b});
    if a != b {
      OutstandingWithout(loans - {b}, a);
      OutstandingWithout(loans - {a}, b);
      assert loans - {b} - {a} == loans - {a} - {b};
    }
  }

  lemma OutstandingUpdate(loans: map<Address, Loan>, a: Address, l: Loan)
    ensures Outstanding(loans[a := l])
            == Outstanding(loans) - (if a in loans then loans[a].principal else 0) + l.principal
  {
    OutstandingWithout(loans[a := l], a);
    assert loans[a := l] - {a} == loans - {a};
    if a in loans {
      OutstandingWithout(loans, a);
    } else {
      assert loans - {a} == loans;
    }
  }

  /** A call rewrites at most the loan record of its own borrower. */
  lemma OneRecord(s: State, c: Call)
    requires s.Ok()
    ensures var t := Step(s, c);
            t.loans == s.loans || (LoanCall(c) && t.loans == s.loans[c.a := t.LoanOf(c.a)])
  {
    hide State.Ok, TryLoanCall;
  }

  /** Principal opened and principal repaid by one call, whoever the borrower is. */
  function CallFlow(s: State, c: Call): Flow
    requires s.Ok()
  {
    if LoanCall(c) then FlowOf(s, c, c.a) else NO_FLOW
  }

  function TotalFlow(s: State, calls: seq<Call>): Flow
    requires s.Ok()
    decreases |calls|
  {
    if calls == [] then NO_FLOW
    else
      StepOk(s, calls[0]);
      CallFlow(s, calls[0]).Plus(TotalFlow(Step(s, calls[0]), calls[1..]))
  }

  /** Across all borrowers and all runs: opened principal is either still outstanding or was repaid. */
  lemma {:induction false} PrincipalConserved(s: State, calls: seq<Call>)
    requires s.Ok()
    ensures Outstanding(s.loans) + TotalFlow(s, calls).lent
            == Outstanding(Run(s, calls).loans) + TotalFlow(s, calls).principalPaid
    decreases |calls|
  {
    hide State.Ok, Step, FlowOf;
    if calls != [] {
      var c := calls[0];
      StepOk(s, c);
      OneRecord(s, c);
      if LoanCall(c) {
        StepBalances(s, c, c.a);
        OutstandingUpdate(s.loans, c.a, Step(s, c).LoanOf(c.a));
      }
      PrincipalConserved(Step(s, c), calls[1..]);
    }
  }

  /** A loan that ends a run paid off, with no other opened meanwhile, has repaid exactly its principal. */
  lemma PaidOffInFull(s: State, calls: seq<Call>, a: Address)
    requires s.Ok() && !Run(s, calls).LoanOf(a).active && Flows(s, calls, a).lent == 0
    ensures Flows(s, calls, a).principalPaid == s.LoanOf(a).principal
    ensures s.LoanOf(a).amountDue + Flows(s, calls, a).interest + Flows(s, calls, a).late
            == Flows(s, calls, a).principalPaid + Flows(s, calls, a).interestPaid - Flows(s, calls, a).excess
  {
    RunBalances(s, calls, a);
    LoanOfOk(Run(s, calls), a);
  }
}
