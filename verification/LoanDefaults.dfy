/** When a loan opens, when it is in default, and what a default leaves open. */
module LoanDefaults {
  import opened LoanTypes
  import opened LoanBook
  import opened LoanInvariant
  import opened LoanRuns
  import opened LoanConservation

  /** A default needs a loan past due, grace and the late period; it takes limit and, for 30 days, credit away. */
  lemma DefaultsExactly(s: State, a: Address)
    requires s.Ok()
    ensures var l := s.LoanOf(a);
            MarkDefault(s, a).Ok? <==>
              && l.active && !l.defaulted && l.due + l.gracePeriod + 15 * 86_400 < s.now
              && s.now + 30 * 86_400 <= 0xFFFF_FFFF_FFFF_FFFF
    ensures MarkDefault(s, a).Ok? ==>
              MarkDefault(s, a).value
              == s.(loans := s.loans[a := s.LoanOf(a).(defaulted := true)],
                    risk := if a in s.risk then s.risk[a := s.risk[a].(limit := 0)] else s.risk,
                    nextBorrow := s.nextBorrow[a := s.now + 30 * 86_400])
  {
    hide State.Ok;
  }

  /** A loan marked as defaulted is overdue by more than the late period. */
  predicate Overdue(s: State, a: Address) {
    var l := s.LoanOf(a); l.defaulted ==> l.active && l.due + l.gracePeriod + 15 * 86_400 < s.now
  }

  lemma StepOverdue(s: State, c: Call, a: Address)
    requires s.Ok() && Overdue(s, a)
    ensures Overdue(Step(s, c), a)
  {
    hide State.Ok, OpenLoan, CloseLoan, ApplyPayment, MarkDefault;
    StepNow(s, c);
    if !Touches(c, a) {
      UntouchedLoan(s, c, a);
    } else if TryLoanCall(s, c).Ok? {
      match c
      case CallOpenLoan(_, principal, tenorDays, feeBps) => OpenedNotDefaulted(s, a, principal, tenorDays, feeBps);
      case CallCloseLoan(_, paid) => CloseLeavesNoLoan(s, a, paid);
      case CallApplyPayment(_, paid) => PaymentEffect(s, a, paid); MaterializedOk(s, a);
      case CallAccrueLate(_) => if s.LoanOf(a).active { MaterializedOk(s, a); }
      case CallMarkDefault(_) => DefaultsExactly(s, a);
    }
  }

  lemma OpenedNotDefaulted(s: State, a: Address, principal: i128, tenorDays: u32, feeBps: u32)
    requires s.Ok() && OpenLoan(s, a, principal, tenorDays, feeBps).Ok?
    ensures !OpenLoan(s, a, principal, tenorDays, feeBps).value.LoanOf(a).defaulted
  {
    OfferOk(s, a);
    hide State.Ok;
  }

  /** In every state a run of the contract reaches, a defaulted loan is live and overdue past grace and late period. */
  lemma {:induction false} DefaultedMeansOverdue(s: State, calls: seq<Call>, a: Address)
    requires s.Ok() && Overdue(s, a)
    ensures Overdue(Run(s, calls), a)
    decreases |calls|
  {
    hide State.Ok, Step, Overdue;
    if calls != [] {
      StepOk(s, calls[0]);
      StepOverdue(s, calls[0], a);
      DefaultedMeansOverdue(Step(s, calls[0]), calls[1..], a);
    }
  }

  /** In particular in every state of a contract, from its construction on. */
  lemma EveryDefaultIsOverdue(now: u64, calls: seq<Call>, a: Address)
    ensures Initial(now).Ok() && Overdue(Run(Initial(now), calls), a)
  {
    InitialOk(now);
    DefaultedMeansOverdue(Initial(now), calls, a);
  }

  /** Whoever defaulted pays everything or nothing: every payment that goes through ends the loan. */
  lemma DefaultedPaysInFull(s: State, a: Address, paid: i128)
    requires s.Ok() && s.LoanOf(a).defaulted && ApplyPayment(s, a, paid).Ok?
    ensures ApplyPayment(s, a, paid).value.0.LoanOf(a) == ZERO_LOAN
    ensures AccruedLoan(s, a).Ok? && AccruedLoan(s, a).value.amountDue <= paid
  {
    hide State.Ok, ApplyPayment;
    PaymentEffect(s, a, paid);
    MaterializedOk(s, a);
  }
}
