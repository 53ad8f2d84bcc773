/** How much interest a loan costs, over every run of the contract. */
module LoanInterest {
  import opened LoanTypes
  import opened FixedPoint
  import opened Accrual
  import opened AccrualLaws
  import opened LoanBook
  import opened LoanInvariant
  import opened LoanRuns
  import opened LoanConservation

  /** A loan exactly as `open_loan` writes it. */
  ghost predicate IsFresh(l: Loan) {
    && 0 < l.principal && 1 <= l.tenorDays && 1 <= l.feeBps
    && !OpenTraps(l.start, l.principal, l.tenorDays, l.feeBps)
    && l == FreshLoan(l.start, l.gracePeriod, l.principal, l.tenorDays, l.feeBps)
  }

  /** What opening writes is such a loan, opened now. */
  lemma OpenedIsFresh(s: State, a: Address, principal: i128, tenorDays: u32, feeBps: u32)
    requires s.Ok() && OpenLoan(s, a, principal, tenorDays, feeBps).Ok?
    ensures var l := OpenLoan(s, a, principal, tenorDays, feeBps).value.LoanOf(a);
            IsFresh(l) && l.principal == principal && l.start == s.now
  {
    OfferOk(s, a);
    hide State.Ok;
  }

  // ---------------------------------------------------------------- schedule independence

  /** The balance at `t` as a formula of the opening terms alone. */
  function OwedByFormula(l: Loan, t: int): int
    requires 1 <= l.tenorDays
  {
    l.principal + if DailyFee(l.principal, l.feeBps, l.tenorDays) > 0 then Cum(l, Max(t, l.start + SECONDS_PER_DAY))
                  else FullFee(l.principal, l.feeBps)
  }

  /** From the due date on, the formula is the principal plus the full fee, to the unit. */
  lemma FormulaAtDue(l: Loan, t: int)
    requires IsFresh(l) && l.due <= t
    ensures OwedByFormula(l, t) == l.principal + FullFee(l.principal, l.feeBps)
  {
    CumAtDue(l, Max(t, l.start + SECONDS_PER_DAY));
  }

  lemma FormulaBelowFull(l: Loan, t: int)
    requires IsFresh(l)
    ensures OwedByFormula(l, t) <= l.principal + FullFee(l.principal, l.feeBps)
  {
    var x := Max(t, l.start + SECONDS_PER_DAY);
    CumMono(l, x, Max(x, l.due));
    CumAtDue(l, Max(x, l.due));
  }

  lemma FreshOnFormula(l: Loan)
    requires IsFresh(l)
    ensures l.amountDue == OwedByFormula(l, l.lastAccrued)
  {
    FloorIsFirstDay(l);
  }

  /** At `now`, `l` is the loan opened as `l0`, accrued but not paid. */
  ghost predicate OnFormula(l: Loan, l0: Loan, now: int)
    requires IsFresh(l0)
  {
    && l == l0.(amountDue := l.amountDue, lastAccrued := l.lastAccrued)
    && l0.lastAccrued <= l.lastAccrued <= Max(l0.lastAccrued, now)
    && l.amountDue == OwedByFormula(l0, l.lastAccrued)
  }

  /** What a caller can check at opening: the whole-term product fits, or opening leaves nothing to accrue. */
  predicate TermFits(l0: Loan)
    requires 1 <= l0.tenorDays
  {
    DailyFee(l0.principal, l0.feeBps, l0.tenorDays) == 0 || l0.tenorDays == 1 || InterestProduct(l0, l0.due) <= I128_MAX
  }

  /** Up to the end of grace, accruing follows the formula whatever the anchor and the late rate. */
  lemma AccruesOnFormula(l: Loan, l0: Loan, rate: nat, t: int)
    requires IsFresh(l0) && LoanOk(l) && OnFormula(l, l0, t)
    requires TermFits(l0) && t <= l0.LateStart()
    ensures Accrued(l, rate, t) == OwedByFormula(l0, Max(l.lastAccrued, t))
  {
    SameCum(l0, l, t);
    SameCum(l0, l, l.lastAccrued);
    assert Accrued(l, rate, t) == WithInterest(l, t);
    if l.lastAccrued < Min(t, l.due) {
      ProductMono(l0, t, Max(t, l0.due));
      CapOnce(l0, Max(t, l0.due));
      assert DailyFee(l0.principal, l0.feeBps, l0.tenorDays) > 0;
    } else if l.lastAccrued < t {
      assert l.due <= l.lastAccrued;
      CumAtDue(l0, t);
      CumAtDue(l0, l.lastAccrued);
    }
  }

  predicate Pays(c: Call, a: Address) { (c.CallCloseLoan? || c.CallApplyPayment?) && c.a == a }

  lemma StepOnFormula(s: State, c: Call, a: Address, l0: Loan)
    requires s.Ok() && IsFresh(l0) && TermFits(l0)
    requires OnFormula(s.LoanOf(a), l0, s.now) && !Pays(c, a) && Step(s, c).now <= l0.LateStart()
    ensures OnFormula(Step(s, c).LoanOf(a), l0, Step(s, c).now)
  {
    var l := s.LoanOf(a);
    LoanOfOk(s, a);
    StepNow(s, c);
    assert MarkDefault(s, a).Err?;
    hide State.Ok, MarkDefault;
    if !Touches(c, a) {
      UntouchedLoan(s, c, a);
    } else if TryLoanCall(s, c).Ok? {
      match c
      case CallOpenLoan(_, principal, tenorDays, feeBps) => OpenNeedsNoLoan(s, a, principal, tenorDays, feeBps);
      case CallAccrueLate(_) =>
        MaterializedOk(s, a);
        AccruesOnFormula(l, l0, s.RateOf(a), s.now);
    }
  }

  /**
   * Until the end of grace, what an unpaid loan owes does not depend on who accrued it when: over any run
   * without a payment by this borrower, the preview is the formula of the opening terms.
   */
  lemma {:induction false} OwedIgnoresSchedule(s: State, calls: seq<Call>, a: Address, l0: Loan)
    requires s.Ok() && IsFresh(l0) && TermFits(l0)
    requires OnFormula(s.LoanOf(a), l0, s.now) && forall c <- calls :: !Pays(c, a)
    requires Run(s, calls).now <= l0.LateStart()
    ensures OnFormula(Run(s, calls).LoanOf(a), l0, Run(s, calls).now)
    ensures PreviewOwed(Run(s, calls), a).Ok? ==>
              PreviewOwed(Run(s, calls), a).value == OwedByFormula(l0, Run(s, calls).now)
    ensures FitsU64(l0.LateStart()) && l0.principal + FullFee(l0.principal, l0.feeBps) <= I128_MAX ==>
              PreviewOwed(Run(s, calls), a).Ok?
    decreases |calls|
  {
    hide State.Ok, Step;
    if calls == [] {
      LoanOfOk(s, a);
      AccruesOnFormula(s.LoanOf(a), l0, s.RateOf(a), s.now);
      AnchorIsImmaterial(s.LoanOf(a), l0, s.now);
      FormulaBelowFull(l0, s.now);
    } else {
      StepOk(s, calls[0]);
      RunNow(Step(s, calls[0]), calls[1..]);
      StepOnFormula(s, calls[0], a, l0);
      OwedIgnoresSchedule(Step(s, calls[0]), calls[1..], a, l0);
    }
  }

  lemma {:induction false} RunNow(s: State, calls: seq<Call>)
    requires s.Ok()
    ensures s.now <= Run(s, calls).now
    decreases |calls|
  {
    hide State.Ok, Step;
    if calls != [] {
      StepOk(s, calls[0]);
      StepNow(s, calls[0]);
      RunNow(Step(s, calls[0]), calls[1..]);
    }
  }

  /** The anchor never stands where the formula would read differently from now. */
  lemma AnchorIsImmaterial(l: Loan, l0: Loan, now: int)
    requires IsFresh(l0) && OnFormula(l, l0, now)
    ensures OwedByFormula(l0, Max(l.lastAccrued, now)) == OwedByFormula(l0, now)
  {
  }

  // ---------------------------------------------------------------- exactness at the due date

  /**
   * The contract's comments promise that an unpaid loan owes exactly principal plus fee at the due date. With checked
   * products that is so exactly when the whole-term product fits, or nothing is left to accrue after opening.
   */
  lemma ExactAtDueExactly(l: Loan, rate: nat)
    requires IsFresh(l)
    ensures Accrued(l, rate, l.due) == l.principal + FullFee(l.principal, l.feeBps)
            <==> TermFits(l)
  {
    var daily, full := DailyFee(l.principal, l.feeBps, l.tenorDays), FullFee(l.principal, l.feeBps);
    OpeningFeeNonNegative(l.principal, l.feeBps, l.tenorDays);
    assert Accrued(l, rate, l.due) == WithInterest(l, l.due);
    if daily == 0 || l.tenorDays == 1 {
      assert l.tenorDays == 1 ==> daily == full;
    } else if InterestProduct(l, l.due) <= I128_MAX {
      FloorIsFirstDay(l);
      CumAtDue(l, l.due);
    } else {
      DivBounds(full, l.tenorDays);
      MulMono(daily, 2, l.tenorDays);
    }
  }

  /** At `now`, `l` is the loan opened as `l0`, unpaid and short of the full fee. */
  ghost predicate Behind(l: Loan, l0: Loan, now: int)
    requires IsFresh(l0)
  {
    && l == l0.(amountDue := l.amountDue, lastAccrued := l.lastAccrued)
    && l0.lastAccrued <= l.lastAccrued <= Max(l0.lastAccrued, now)
    && l.amountDue < l0.principal + FullFee(l0.principal, l0.feeBps)
    && l.amountDue <= l0.principal + Cum(l0, l.lastAccrued)
  }

  /** When the whole-term product does not fit, every second of the term earns a unit: the fee is full only at due. */
  lemma NotFullBeforeDue(l0: Loan, t: int)
    requires IsFresh(l0) && InterestProduct(l0, l0.due) > I128_MAX && l0.start <= t < l0.due
    ensures Cum(l0, t) < FullFee(l0.principal, l0.feeBps)
  {
    var perSec, d := l0.principal * l0.feeBps, BPS_DENOM * l0.TenorSecs();
    assert 0 <= perSec by { MulMono(l0.principal, 0, l0.feeBps); }
    if perSec < d {
      MulMono(l0.TenorSecs(), perSec, d);
      MulMono(d, l0.TenorSecs(), U32_MAX * SECONDS_PER_DAY);
    }
    var gone := Elapsed(l0, t);
    MulMono(perSec, gone + 1, l0.TenorSecs());
    assert perSec * (gone + 1) == perSec * gone + perSec;
    DivBounds(perSec * gone, d);
    DivAtLeast(InterestProduct(l0, l0.due), d, Cum(l0, t) + 1);
    CumAtDue(l0, l0.due);
  }

  lemma FreshBehind(l0: Loan)
    requires IsFresh(l0) && !TermFits(l0)
    ensures Behind(l0, l0, l0.start)
  {
    FloorIsFirstDay(l0);
    NotFullBeforeDue(l0, l0.lastAccrued);
  }

  lemma AccruesBehind(l: Loan, l0: Loan, rate: nat, t: int)
    requires IsFresh(l0) && !TermFits(l0) && LoanOk(l) && Behind(l, l0, t) && t <= l0.LateStart()
    ensures Accrued(l, rate, t) < l0.principal + FullFee(l0.principal, l0.feeBps)
    ensures Accrued(l, rate, t) <= l0.principal + Cum(l0, Max(l.lastAccrued, t))
  {
    SameCum(l0, l, t);
    SameCum(l0, l, l.lastAccrued);
    assert Accrued(l, rate, t) == WithInterest(l, t);
    if l.lastAccrued < t {
      CumMono(l0, l.lastAccrued, t);
      if PreDue(l, t) > 0 {
        CapOnce(l0, t);
        NotFullBeforeDue(l0, t);
      }
    }
  }

  lemma StepBehind(s: State, c: Call, a: Address, l0: Loan)
    requires s.Ok() && IsFresh(l0) && !TermFits(l0)
    requires Behind(s.LoanOf(a), l0, s.now) && !Pays(c, a) && Step(s, c).now <= l0.LateStart()
    ensures Behind(Step(s, c).LoanOf(a), l0, Step(s, c).now)
  {
    var l := s.LoanOf(a);
    LoanOfOk(s, a);
    StepNow(s, c);
    assert MarkDefault(s, a).Err?;
    hide State.Ok, MarkDefault;
    if !Touches(c, a) {
      UntouchedLoan(s, c, a);
    } else if TryLoanCall(s, c).Ok? {
      match c
      case CallOpenLoan(_, principal, tenorDays, feeBps) => OpenNeedsNoLoan(s, a, principal, tenorDays, feeBps);
      case CallAccrueLate(_) =>
        MaterializedOk(s, a);
        AccruesBehind(l, l0, s.RateOf(a), s.now);
    }
  }

  lemma {:induction false} RunBehind(s: State, calls: seq<Call>, a: Address, l0: Loan)
    requires s.Ok() && IsFresh(l0) && !TermFits(l0)
    requires Behind(s.LoanOf(a), l0, s.now) && forall c <- calls :: !Pays(c, a)
    requires Run(s, calls).now <= l0.LateStart()
    ensures Behind(Run(s, calls).LoanOf(a), l0, Run(s, calls).now)
    decreases |calls|
  {
    hide State.Ok, Step, Behind;
    if calls != [] {
      StepOk(s, calls[0]);
      RunNow(Step(s, calls[0]), calls[1..]);
      StepBehind(s, calls[0], a, l0);
      RunBehind(Step(s, calls[0]), calls[1..], a, l0);
    }
  }

  /** What accrual would make of the balance of `a` now; a preview, when it does not trap. */
  function OwedNow(s: State, a: Address): int
    requires s.Ok()
  {
    Accrued(s.LoanOf(a), s.RateOf(a), s.now)
  }

  /**
   * Over runs: from opening on, however the loan is charged and whatever else happens, short of a payment by this
   * borrower it owes exactly principal plus full fee between the due date and the end of grace if and only if the
   * term fits; otherwise no such run gets there.
   */
  lemma UnpaidRunsExactAtDue(s: State, calls: seq<Call>, a: Address, l0: Loan)
    requires s.Ok() && IsFresh(l0) && s.LoanOf(a) == l0 && forall c <- calls :: !Pays(c, a)
    requires l0.due <= Run(s, calls).now <= l0.LateStart()
    ensures OwedNow(Run(s, calls), a) == l0.principal + FullFee(l0.principal, l0.feeBps) <==> TermFits(l0)
    ensures !TermFits(l0) ==> OwedNow(Run(s, calls), a) < l0.principal + FullFee(l0.principal, l0.feeBps)
  {
    var end := Run(s, calls);
    LoanOfOk(s, a);
    LoanOfOk(end, a);
    hide State.Ok, Step, Accrued;
    if TermFits(l0) {
      FreshOnFormula(l0);
      OwedIgnoresSchedule(s, calls, a, l0);
      AccruesOnFormula(end.LoanOf(a), l0, end.RateOf(a), end.now);
      AnchorIsImmaterial(end.LoanOf(a), l0, end.now);
      FormulaAtDue(l0, end.now);
    } else {
      FreshBehind(l0);
      RunBehind(s, calls, a, l0);
      AccruesBehind(end.LoanOf(a), l0, end.RateOf(a), end.now);
    }
  }

  // ---------------------------------------------------------------- partial payments

  /** Pre-due interest charged from here on, for as long as the present loan lives. */
  function InterestWhileAlive(s: State, calls: seq<Call>, a: Address): int
    requires s.Ok()
    decreases |calls|
  {
    if calls == [] || !s.LoanOf(a).active then 0
    else
      StepOk(s, calls[0]);
      FlowOf(s, calls[0], a).interest + InterestWhileAlive(Step(s, calls[0]), calls[1..], a)
  }

  /** Whether this call leaves the loan alive with a smaller principal. */
  predicate Reprices(s: State, c: Call, a: Address)
    requires s.Ok()
  {
    Step(s, c).LoanOf(a).active && Step(s, c).LoanOf(a).principal < s.LoanOf(a).principal
  }

  function Repricings(s: State, calls: seq<Call>, a: Address): nat
    requires s.Ok()
    decreases |calls|
  {
    if calls == [] || !s.LoanOf(a).active then 0
    else
      StepOk(s, calls[0]);
      (if Reprices(s, calls[0], a) then 1 else 0) + Repricings(Step(s, calls[0]), calls[1..], a)
  }

  /** Charging up to `t` uses up interest still to come; it never adds to it. */
  lemma ChargeUsesRemaining(l: Loan, t: int)
    requires LoanOk(l) && l.active
    ensures PreDue(l, t) + Remaining(l, Max(l.lastAccrued, t)) <= Remaining(l, l.lastAccrued)
    ensures 0 <= Remaining(l, Max(l.lastAccrued, t))
  {
    var x := Max(l.lastAccrued, t);
    CumMono(l, l.lastAccrued, x);
    CumMono(l, x, Max(x, l.due));
    CapOnce(l, Max(x, l.due));
  }

  /** What a call does to a live loan: nothing that matters here, or all the interest up to now is charged. */
  ghost predicate Spends(l: Loan, m: Loan, interest: int, now: int)
    requires LoanOk(l)
  {
    || (interest == 0 && m.lastAccrued == l.lastAccrued && m.principal == l.principal)
    || (&& interest == PreDue(l, now) && m.principal <= l.principal
        && (m.active ==> m.lastAccrued == Max(l.lastAccrued, now)))
  }

  lemma PaymentSpends(s: State, a: Address, paid: i128)
    requires s.Ok() && LoanOk(s.LoanOf(a)) && ApplyPayment(s, a, paid).Ok?
    ensures Spends(s.LoanOf(a), ApplyPayment(s, a, paid).value.0.LoanOf(a), PaymentFlow(s, a, paid).interest, s.now)
  {
    PaymentEffect(s, a, paid);
    MaterializedOk(s, a);
    hide State.Ok, ApplyPayment, MaterializedAt, PreDue;
  }

  lemma CloseSpends(s: State, a: Address, paid: i128)
    requires s.Ok() && LoanOk(s.LoanOf(a)) && CloseLoan(s, a, paid).Ok?
    ensures Spends(s.LoanOf(a), CloseLoan(s, a, paid).value.LoanOf(a), CloseFlow(s, a, paid).interest, s.now)
  {
    CloseLeavesNoLoan(s, a, paid);
    hide State.Ok, AccrueLoan, PreDue;
  }

  lemma AccrueSpends(s: State, a: Address)
    requires s.Ok() && LoanOk(s.LoanOf(a)) && s.LoanOf(a).active && AccrueLate(s, a).Ok?
    ensures Spends(s.LoanOf(a), AccrueLate(s, a).value.LoanOf(a), AccrueFlow(s, a).interest, s.now)
  {
    MaterializedOk(s, a);
    hide State.Ok, MaterializedAt, PreDue;
  }

  lemma LiveFlow(s: State, c: Call, a: Address)
    requires s.Ok() && LoanOk(s.LoanOf(a)) && s.LoanOf(a).active
    ensures Spends(s.LoanOf(a), Step(s, c).LoanOf(a), FlowOf(s, c, a).interest, s.now)
  {
    hide State.Ok, PreDue;
    if !Touches(c, a) {
      hide TryLoanCall;
      UntouchedLoan(s, c, a);
    } else if TryLoanCall(s, c).Ok? {
      assert forall l: Loan :: LoanOk(l) ==> Spends(l, l.(defaulted := true), 0, s.now);
      hide CloseLoan, ApplyPayment, MarkDefault, AccrueLate, CloseFlow, PaymentFlow, AccrueFlow, Spends;
      match c
      case CallOpenLoan(_, principal, tenorDays, feeBps) => OpenNeedsNoLoan(s, a, principal, tenorDays, feeBps);
      case CallCloseLoan(_, paid) => CloseSpends(s, a, paid);
      case CallApplyPayment(_, paid) => PaymentSpends(s, a, paid);
      case CallAccrueLate(_) => AccrueSpends(s, a);
      case CallMarkDefault(_) => DefaultBalances(s, a);
    }
  }

  lemma StepInterestCapped(s: State, c: Call, a: Address, l: Loan, m: Loan)
    requires s.Ok() && l == s.LoanOf(a) && m == Step(s, c).LoanOf(a)
    requires l.active && LoanOk(l) && LoanOk(m)
    ensures FlowOf(s, c, a).interest + (if m.active then Remaining(m, m.lastAccrued) else 0)
            <= Remaining(l, l.lastAccrued) + (if Reprices(s, c, a) then 1 else 0)
  {
    hide State.Ok, FlowOf, Step;
    LiveFlow(s, c, a);
    ChargeUsesRemaining(l, s.now);
    ChargeUsesRemaining(l, l.lastAccrued);
    if m.active {
      LivingLoan(s, c, a);
      hide PreDue;
      if m.principal < l.principal {
        RepricingCostsAtMostOne(l, m, m.lastAccrued);
      } else {
        assert Elapsed(l, m.lastAccrued) == Elapsed(m, m.lastAccrued) && Elapsed(l, l.due) == Elapsed(m, l.due);
      }
    }
  }

  /**
   * However payments and accruals interleave, a loan's interest over its whole life stays within what was
   * still to come plus one unit for every partial payment that lowered the principal.
   */
  lemma {:induction false} InterestCapped(s: State, calls: seq<Call>, a: Address)
    requires s.Ok() && s.LoanOf(a).active
    ensures InterestWhileAlive(s, calls, a)
            <= Remaining(s.LoanOf(a), s.LoanOf(a).lastAccrued) + Repricings(s, calls, a)
    decreases |calls|
  {
    LoanOfOk(s, a);
    if calls == [] {
      ChargeUsesRemaining(s.LoanOf(a), s.LoanOf(a).lastAccrued);
    } else {
      StepOk(s, calls[0]);
      LoanOfOk(Step(s, calls[0]), a);
      hide State.Ok, Step, FlowOf, Remaining, Reprices;
      StepInterestCapped(s, calls[0], a, s.LoanOf(a), Step(s, calls[0]).LoanOf(a));
      if Step(s, calls[0]).LoanOf(a).active {
        InterestCapped(Step(s, calls[0]), calls[1..], a);
      }
    }
  }

  /** Counted from opening: never more than the full fee plus the repricings. */
  lemma LifetimeInterestCapped(s: State, calls: seq<Call>, a: Address)
    requires s.Ok() && IsFresh(s.LoanOf(a))
    ensures var l := s.LoanOf(a);
            OpeningFee(l.principal, l.feeBps, l.tenorDays) + InterestWhileAlive(s, calls, a)
            <= FullFee(l.principal, l.feeBps) + Repricings(s, calls, a)
  {
    hide State.Ok, InterestWhileAlive, Repricings;
    var l := s.LoanOf(a);
    InterestCapped(s, calls, a);
    CumAtDue(l, l.due);
    FloorIsFirstDay(l);
  }
}
