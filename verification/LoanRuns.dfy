/** Runs of the loan manager: arbitrary sequences of calls, by anyone, with time passing between them. */
module LoanRuns {
  import opened LoanTypes
  import opened Accrual
  import opened LoanBook
  import opened LoanInvariant

  function Run(s: State, calls: seq<Call>): (end: State)
    requires s.Ok()
    ensures end.Ok()
    decreases |calls|
  {
    if calls == [] then s
    else
      StepOk(s, calls[0]);
      Run(Step(s, calls[0]), calls[1..])
  }

  lemma InitialOk(now: u64)
    ensures Initial(now).Ok()
  {
  }

  /** Calls that may change the loan record of `a`. */
  predicate Touches(c: Call, a: Address) { LoanCall(c) && c.a == a }

  /** Borrowers are independent: a call about somebody else leaves a loan record alone. */
  lemma UntouchedLoan(s: State, c: Call, a: Address)
    requires s.Ok() && !Touches(c, a)
    ensures Step(s, c).LoanOf(a) == s.LoanOf(a)
  {
    hide State.Ok, TryLoanCall;
  }

  /** What one call moves for one borrower. */
  datatype Flow = Flow(lent: int, interest: int, late: int, principalPaid: int, interestPaid: int, excess: int) {
    function Plus(f: Flow): Flow {
      Flow(lent + f.lent, interest + f.interest, late + f.late, principalPaid + f.principalPaid,
           interestPaid + f.interestPaid, excess + f.excess)
    }
  }

  const NO_FLOW := Flow(0, 0, 0, 0, 0, 0)

  /** What accrual charges the loan of `a` if it is materialized now. */
  function ChargeNow(s: State, a: Address): Flow
    requires s.Ok()
  {
    var l := s.LoanOf(a);
    NO_FLOW.(interest := PreDue(l, s.now), late := Accrued(l, s.RateOf(a), s.now) - WithInterest(l, s.now))
  }

  function OpenFlow(s: State, a: Address, principal: i128, tenorDays: u32, feeBps: u32): Flow
    requires s.Ok() && OpenLoan(s, a, principal, tenorDays, feeBps).Ok?
  {
    OfferOk(s, a);
    NO_FLOW.(lent := principal, interest := OpeningFee(principal, feeBps, tenorDays))
  }

  function CloseFlow(s: State, a: Address, paid: i128): Flow
    requires s.Ok() && CloseLoan(s, a, paid).Ok?
  {
    var l := AccruedLoan(s, a).value;
    ChargeNow(s, a).(principalPaid := l.principal, interestPaid := paid - l.principal, excess := paid - l.amountDue)
  }

  /** The split is the one the contract's own receipt reports. */
  function PaymentFlow(s: State, a: Address, paid: i128): Flow
    requires s.Ok() && ApplyPayment(s, a, paid).Ok?
  {
    var receipt := ApplyPayment(s, a, paid).value.1;
    var l := Materialized(s, a).value;
    ChargeNow(s, a).(principalPaid := receipt.principalPaid, interestPaid := receipt.interestPaid,
                     excess := Max(0, paid - l.amountDue))
  }

  function AccrueFlow(s: State, a: Address): Flow
    requires s.Ok()
  {
    if s.LoanOf(a).active then ChargeNow(s, a) else NO_FLOW
  }

  /** What one call moves for the borrower `a`: fees as charged, payments as split. */
  function FlowOf(s: State, c: Call, a: Address): Flow
    requires s.Ok()
  {
    if !Touches(c, a) || TryLoanCall(s, c).Err? then NO_FLOW
    else match c
      case CallOpenLoan(_, principal, tenorDays, feeBps) => OpenFlow(s, a, principal, tenorDays, feeBps)
      case CallCloseLoan(_, paid) => CloseFlow(s, a, paid)
      case CallApplyPayment(_, paid) => PaymentFlow(s, a, paid)
      case CallAccrueLate(_) => AccrueFlow(s, a)
      case _ => NO_FLOW
  }
}
