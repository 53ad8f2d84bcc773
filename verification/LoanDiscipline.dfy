/** When loans may be opened and when a payoff goes through, over whole runs. */
module LoanDiscipline {
  import opened LoanTypes
  import opened Accrual
  import opened AccrualLaws
  import opened LoanBook
  import opened LoanInvariant
  import opened LoanRuns
  import opened LoanConservation
  import opened LoanInterest

  // ---------------------------------------------------------------- paying off

  /** What a borrower can check beforehand: the late window and the hold both end inside the clock. */
  predicate PayoffGuard(s: State, a: Address) {
    var l := s.LoanOf(a);
    && (s.now <= l.lastAccrued || s.RateOf(a) == 0 || FitsU64(l.LateStart()))
    && (l.tenorDays in s.minHold ==> FitsU64(l.start + s.minHold[l.tenorDays]))
  }

  /** A balance that can be paid at all faults only through the clock. */
  lemma PayableTraps(l: Loan, rate: nat, now: u64, paid: i128)
    requires LoanOk(l) && l.active && Accrued(l, rate, now) <= paid
    ensures Traps(l, rate, now) <==> l.lastAccrued < now && rate > 0 && !FitsU64(l.LateStart())
  {
    TrapsExactly(l, rate, now);
  }

  /**
   * The contract's comments promise that no late rate can block a payoff. For every live loan and every sum: it closes
   * the loan, through either entry point, exactly when it covers the balance and the guard holds. A balance beyond
   * i128, which no sum covers, is the one case besides the guard in which nothing does.
   */
  lemma PayoffExactly(s: State, a: Address, paid: i128)
    requires s.Ok() && s.LoanOf(a).active
    ensures CloseLoan(s, a, paid).Ok?
            <==> Accrued(s.LoanOf(a), s.RateOf(a), s.now) <= paid && PayoffGuard(s, a)
    ensures ApplyPayment(s, a, paid).Ok? && !ApplyPayment(s, a, paid).value.0.LoanOf(a).active
            <==> Accrued(s.LoanOf(a), s.RateOf(a), s.now) <= paid && PayoffGuard(s, a)
    ensures CloseLoan(s, a, paid).Ok? ==>
              && CloseLoan(s, a, paid).value.LoanOf(a) == ZERO_LOAN
              && ApplyPayment(s, a, paid).value.0 == CloseLoan(s, a, paid).value
              && ApplyPayment(s, a, paid).value.1 == Receipt(s.LoanOf(a).principal, paid - s.LoanOf(a).principal, 0)
  {
    LoanOfOk(s, a);
    var l, rate := s.LoanOf(a), s.RateOf(a);
    hide State.Ok, Accrued, Traps, ApplyPayment;
    CloseByClosing(s, a, paid);
    if Accrued(l, rate, s.now) <= paid {
      PayableTraps(l, rate, s.now, paid);
      CloseByPaying(s, a, paid);
      if CloseLoan(s, a, paid).Ok? {
        CloseLeavesNoLoan(s, a, paid);
      }
    } else if ApplyPayment(s, a, paid).Ok? {
      PaymentEffect(s, a, paid);
      MaterializedOk(s, a);
    }
  }

  lemma CloseByClosing(s: State, a: Address, paid: i128)
    requires s.Ok() && s.LoanOf(a).active
    ensures CloseLoan(s, a, paid) ==
            match AccruedLoan(s, a)
            case Err(e) => Err(e)
            case Ok(l) => if paid < l.amountDue then Err(Underpaid) else FinishClose(s, a, l.start, l.tenorDays)
  {
    hide State.Ok, AccrueLoan;
  }

  /** Paying everything owed and closing are the same transition. */
  lemma CloseByPaying(s: State, a: Address, paid: i128)
    requires s.Ok() && s.LoanOf(a).active && (AccruedLoan(s, a).Ok? ==> 0 < AccruedLoan(s, a).value.amountDue <= paid)
    ensures ApplyPayment(s, a, paid).Ok? <==> CloseLoan(s, a, paid).Ok?
    ensures ApplyPayment(s, a, paid).Ok? ==>
              && ApplyPayment(s, a, paid).value.0 == CloseLoan(s, a, paid).value
              && ApplyPayment(s, a, paid).value.1 == Receipt(s.LoanOf(a).principal, paid - s.LoanOf(a).principal, 0)
  {
    LoanOfOk(s, a);
    hide State.Ok, AccrueLoan;
    CloseByClosing(s, a, paid);
    if AccruedLoan(s, a).Ok? { MaterializedOk(s, a); }
    hide CloseLoan;
  }

  /** Three calls that break the guard, whoever the borrower: no payment of any size goes through afterwards. */
  function BlockingRun(a: Address, principal: i128, tenorDays: u32, feeBps: u32, until: u64): seq<Call> {
    [CallSetDefaultGracePeriod(U64_MAX), CallOpenLoan(a, principal, tenorDays, feeBps), TimePasses(until)]
  }

  lemma UnboundedGraceBlocksPayoff(
      s: State, a: Address, principal: i128, tenorDays: u32, feeBps: u32, until: u64, paid: i128)
    requires s.Ok() && OpenLoan(s, a, principal, tenorDays, feeBps).Ok? && 0 < s.RateOf(a)
    requires s.now + tenorDays * SECONDS_PER_DAY < until
    ensures var end := Run(s, BlockingRun(a, principal, tenorDays, feeBps, until));
            end.LoanOf(a).active && ApplyPayment(end, a, paid).Err? && CloseLoan(end, a, paid).Err?
  {
    var grace, open, wait := CallSetDefaultGracePeriod(U64_MAX), CallOpenLoan(a, principal, tenorDays, feeBps),
                             TimePasses(until);
    RunThree(s, grace, open, wait);
    OpenUnderGrace(s, Step(s, grace), a, principal, tenorDays, feeBps);
    hide State.Ok, OpenLoan, Step;
    var t := Step(s, grace);
    var u := Step(t, open);
    StepOpens(t, a, principal, tenorDays, feeBps);
    StepWaits(u, a, until);
    Blocked(Step(u, wait), a, paid);
  }

  lemma StepOpens(s: State, a: Address, principal: i128, tenorDays: u32, feeBps: u32)
    requires s.Ok() && OpenLoan(s, a, principal, tenorDays, feeBps).Ok?
    ensures Step(s, CallOpenLoan(a, principal, tenorDays, feeBps))
            == OpenLoan(s, a, principal, tenorDays, feeBps).value
  {
    hide State.Ok, OpenLoan;
  }

  lemma StepWaits(s: State, a: Address, until: u64)
    requires s.Ok()
    ensures var t := Step(s, TimePasses(until));
            t.LoanOf(a) == s.LoanOf(a) && t.RateOf(a) == s.RateOf(a) && until <= t.now
  {
    hide State.Ok, TryLoanCall;
  }

  /** Opening reads the default grace period only to store it. */
  lemma OpenUnderGrace(s: State, t: State, a: Address, principal: i128, tenorDays: u32, feeBps: u32)
    requires s.Ok() && OpenLoan(s, a, principal, tenorDays, feeBps).Ok?
    requires t.Ok() && t == Step(s, CallSetDefaultGracePeriod(U64_MAX))
    ensures OpenLoan(t, a, principal, tenorDays, feeBps).Ok?
    ensures var u := OpenLoan(t, a, principal, tenorDays, feeBps).value;
            && u.now == s.now && u.RateOf(a) == s.RateOf(a) && u.LoanOf(a).active
            && !FitsU64(u.LoanOf(a).LateStart())
            && u.LoanOf(a).lastAccrued <= s.now + tenorDays * SECONDS_PER_DAY
  {
    OfferOk(s, a);
    hide State.Ok;
    assert t == s.(grace := U64_MAX);
    OpeningFeeNonNegative(principal, feeBps, tenorDays);
    hide OpeningFee, FullFee;
  }

  lemma RunThree(s: State, c0: Call, c1: Call, c2: Call)
    requires s.Ok()
    ensures Step(s, c0).Ok() && Step(Step(s, c0), c1).Ok() && Step(Step(Step(s, c0), c1), c2).Ok()
    ensures Run(s, [c0, c1, c2]) == Step(Step(Step(s, c0), c1), c2)
  {
    hide State.Ok, Step;
    StepOk(s, c0);
    StepOk(Step(s, c0), c1);
    StepOk(Step(Step(s, c0), c1), c2);
    assert [c0, c1, c2][1..] == [c1, c2] && [c1, c2][1..] == [c2] && [c2][1..] == [];
    assert Run(Step(Step(s, c0), c1), [c2]) == Step(Step(Step(s, c0), c1), c2);
  }

  /** Without the guard nothing of what a borrower can pay closes the loan. */
  lemma Blocked(s: State, a: Address, paid: i128)
    requires s.Ok() && s.LoanOf(a).active
    requires s.LoanOf(a).lastAccrued < s.now && 0 < s.RateOf(a) && !FitsU64(s.LoanOf(a).LateStart())
    ensures ApplyPayment(s, a, paid).Err? && CloseLoan(s, a, paid).Err?
  {
    LoanOfOk(s, a);
    hide State.Ok;
    TrapsExactly(s.LoanOf(a), s.RateOf(a), s.now);
  }

  // ---------------------------------------------------------------- opening

  predicate OpensLoan(s: State, c: Call, a: Address)
    requires s.Ok()
  {
    c.CallOpenLoan? && c.a == a && Try(s, c).Ok?
  }

  predicate WritesOffer(s: State, c: Call, a: Address)
    requires s.Ok()
  {
    c.CallSetLoanOffer? && c.a == a && Try(s, c).Ok?
  }

  function Count(b: bool): nat { if b then 1 else 0 }

  function Opens(s: State, calls: seq<Call>, a: Address): nat
    requires s.Ok()
    decreases |calls|
  {
    if calls == [] then 0
    else
      StepOk(s, calls[0]);
      Count(OpensLoan(s, calls[0], a)) + Opens(Step(s, calls[0]), calls[1..], a)
  }

  function Offers(s: State, calls: seq<Call>, a: Address): nat
    requires s.Ok()
    decreases |calls|
  {
    if calls == [] then 0
    else
      StepOk(s, calls[0]);
      Count(WritesOffer(s, calls[0], a)) + Offers(Step(s, calls[0]), calls[1..], a)
  }

  /** Credit is the stored limit of a profile with KYC that has not expired, and nothing otherwise. */
  lemma CreditExactly(s: State, a: Address, amount: i128)
    requires s.Ok() && 0 < amount
    ensures amount <= s.CreditLimit(a) <==>
              && a in s.risk && s.risk[a].kycOk && (s.risk[a].validUntil == 0 || s.now <= s.risk[a].validUntil)
              && amount <= s.risk[a].limit
    ensures 0 < s.CreditLimit(a) <==>
              && a in s.risk && s.risk[a].kycOk && (s.risk[a].validUntil == 0 || s.now <= s.risk[a].validUntil)
              && 0 < s.risk[a].limit
  {
  }

  /** A loan opens exactly on the offered terms, within offer and credit, after the cooldown, when its numbers fit. */
  lemma OpensExactly(s: State, a: Address, principal: i128, tenorDays: u32, feeBps: u32)
    requires s.Ok()
    ensures OpenLoan(s, a, principal, tenorDays, feeBps).Ok? <==>
              && a in s.offers && s.now <= s.offers[a].validUntil
              && tenorDays == s.offers[a].tenorDays && feeBps == s.offers[a].feeBps
              && 0 < principal <= s.offers[a].maxAmount
              && a in s.risk && s.risk[a].kycOk && (s.risk[a].validUntil == 0 || s.now <= s.risk[a].validUntil)
              && principal <= s.risk[a].limit
              && (a in s.nextBorrow ==> s.nextBorrow[a] <= s.now) && (a in s.loans ==> !s.loans[a].active)
              && !OpenTraps(s.now, principal, tenorDays, feeBps)
  {
    if 0 < principal {
      CreditExactly(s, a, principal);
    }
    hide OpenTraps, State.CreditLimit;
    if a in s.offers {
      OfferOk(s, a);
    }
  }

  /** Opening takes the offer away, within its cap and a limit granted with KYC, and only with no loan alive. */
  lemma OpenInBounds(s: State, c: Call, a: Address)
    requires s.Ok() && OpensLoan(s, c, a)
    ensures a in s.offers && a !in Step(s, c).offers && !s.LoanOf(a).active && Step(s, c).LoanOf(a).active
    ensures a in s.risk && s.risk[a].kycOk && (s.risk[a].validUntil == 0 || s.now <= s.risk[a].validUntil)
    ensures 0 < c.principal <= s.risk[a].limit && c.principal <= s.offers[a].maxAmount
    ensures s.NextBorrowOf(a) <= s.now
  {
    OpensExactly(s, a, c.principal, c.tenorDays, c.feeBps);
    hide State.Ok, OpenRefusal, OpenTraps, State.CreditLimit;
  }

  lemma StepOffers(s: State, c: Call, a: Address)
    requires s.Ok()
    ensures Count(OpensLoan(s, c, a)) + Count(a in Step(s, c).offers)
            <= Count(WritesOffer(s, c, a)) + Count(a in s.offers)
  {
    hide State.Ok, CloseLoan, ApplyPayment, AccrueLate, MarkDefault;
    if LoanCall(c) && !c.CallOpenLoan? {
      OffersKept(s, c);
    } else if OpensLoan(s, c, a) {
      OpenInBounds(s, c, a);
    }
  }

  lemma OffersKept(s: State, c: Call)
    requires s.Ok() && LoanCall(c) && !c.CallOpenLoan?
    ensures Step(s, c).offers == s.offers
  {
    hide State.Ok, CloseLoan, ApplyPayment, AccrueLate, MarkDefault;
    match c
    case CallCloseLoan(a, paid) => CloseKeepsOffers(s, a, paid);
    case CallApplyPayment(a, paid) => PaymentKeepsOffers(s, a, paid);
    case CallAccrueLate(a) => ChargeKeepsOffers(s, a);
    case CallMarkDefault(a) => DefaultKeepsOffers(s, a);
  }

  lemma CloseKeepsOffers(s: State, a: Address, paid: i128)
    requires s.Ok()
    ensures CloseLoan(s, a, paid).Ok? ==> CloseLoan(s, a, paid).value.offers == s.offers
  {
    hide State.Ok, AccruedLoan;
  }

  lemma PaymentKeepsOffers(s: State, a: Address, paid: i128)
    requires s.Ok()
    ensures ApplyPayment(s, a, paid).Ok? ==> ApplyPayment(s, a, paid).value.0.offers == s.offers
  {
    hide State.Ok, Materialized, FinishClose;
    if ApplyPayment(s, a, paid).Ok? && s.LoanOf(a).active {
      MaterializedOk(s, a);
      var l := Materialized(s, a).value;
      FinishKeepsOffers(s, a, l.start, l.tenorDays);
    }
  }

  lemma FinishKeepsOffers(s: State, a: Address, start: u64, tenorDays: u32)
    ensures FinishClose(s, a, start, tenorDays).Ok? ==> FinishClose(s, a, start, tenorDays).value.offers == s.offers
  {
  }

  lemma ChargeKeepsOffers(s: State, a: Address)
    requires s.Ok()
    ensures AccrueLate(s, a).Ok? ==> AccrueLate(s, a).value.offers == s.offers
  {
    hide State.Ok, MaterializedAt;
  }

  lemma DefaultKeepsOffers(s: State, a: Address)
    requires s.Ok()
    ensures MarkDefault(s, a).Ok? ==> MarkDefault(s, a).value.offers == s.offers
  {
    hide State.Ok;
  }

  /** Over any run a borrower opens at most as many loans as offers were written for them. */
  lemma {:induction false} OffersCoverOpens(s: State, calls: seq<Call>, a: Address)
    requires s.Ok()
    ensures Opens(s, calls, a) + Count(a in Run(s, calls).offers) <= Offers(s, calls, a) + Count(a in s.offers)
    decreases |calls|
  {
    hide State.Ok, Step, OpensLoan, WritesOffer;
    if calls != [] {
      StepOk(s, calls[0]);
      StepOffers(s, calls[0], a);
      OffersCoverOpens(Step(s, calls[0]), calls[1..], a);
    }
  }

  // ---------------------------------------------------------------- spacing between loans

  /** Either the earliest next opening has come, or it is still recorded and no loan is alive. */
  ghost predicate Waiting(s: State, a: Address, earliest: u64) {
    earliest <= s.now || (!s.LoanOf(a).active && s.NextBorrowOf(a) == earliest)
  }

  lemma StepWaiting(s: State, c: Call, a: Address, earliest: u64)
    requires s.Ok() && Waiting(s, a, earliest)
    ensures Waiting(Step(s, c), a, earliest)
  {
    StepNow(s, c);
    hide State.Ok;
    if s.now < earliest {
      if OpensLoan(s, c, a) {
        OpenInBounds(s, c, a);
      } else if Touches(c, a) && Try(s, c).Ok? {
        IdleRefusals(s, c, a);
      } else {
        OthersCooldown(s, c, a);
        if !Touches(c, a) { UntouchedLoan(s, c, a); }
      }
    }
  }

  /** With no loan alive, of the calls to a borrower's loan only opening and the no-op accrual succeed. */
  lemma IdleRefusals(s: State, c: Call, a: Address)
    requires s.Ok() && Touches(c, a) && !s.LoanOf(a).active && Try(s, c).Ok?
    ensures c.CallOpenLoan? || (c.CallAccrueLate? && Step(s, c) == s)
  {
    hide State.Ok, MaterializedAt, AccrueLoan;
  }

  lemma OthersCooldown(s: State, c: Call, a: Address)
    requires s.Ok() && (!Touches(c, a) || Try(s, c).Err?)
    ensures Step(s, c).NextBorrowOf(a) == s.NextBorrowOf(a)
  {
    hide State.Ok, MaterializedAt, AccrueLoan;
  }

  lemma {:induction false} RunWaiting(s: State, calls: seq<Call>, a: Address, earliest: u64)
    requires s.Ok() && Waiting(s, a, earliest)
    ensures Waiting(Run(s, calls), a, earliest)
    decreases |calls|
  {
    hide State.Ok, Step, Waiting;
    if calls != [] {
      StepOk(s, calls[0]);
      StepWaiting(s, calls[0], a, earliest);
      RunWaiting(Step(s, calls[0]), calls[1..], a, earliest);
    }
  }

  /** A call that ends the loan of `a`. */
  predicate Closes(s: State, c: Call, a: Address)
    requires s.Ok()
  {
    s.LoanOf(a).active && !Step(s, c).LoanOf(a).active
  }

  /**
   * Only a payment of everything owed ends a loan, and it starts the cooldown: the later of now and the end of the
   * hold stored for the loan's own tenor, counted from its start.
   */
  lemma CloseEffect(s: State, c: Call, a: Address)
    requires s.Ok() && Closes(s, c, a)
    ensures Pays(c, a) && AccruedLoan(s, a).Ok? && AccruedLoan(s, a).value.amountDue <= c.paid
    ensures a in Step(s, c).nextBorrow
    ensures var l := s.LoanOf(a);
            var end := l.start + if l.tenorDays in s.minHold then s.minHold[l.tenorDays] else 0;
            Step(s, c).nextBorrow[a] == if s.now < end then end else s.now
  {
    hide State.Ok, Step;
    if !Pays(c, a) {
      OnlyPaymentsClose(s, c, a);
    } else {
      PayingCloses(s, c, a);
    }
  }

  lemma OnlyPaymentsClose(s: State, c: Call, a: Address)
    requires s.Ok() && s.LoanOf(a).active && !Pays(c, a)
    ensures Step(s, c).LoanOf(a).active
  {
    hide State.Ok, MarkDefault, OpenLoan;
    if !Touches(c, a) {
      UntouchedLoan(s, c, a);
    } else if TryLoanCall(s, c).Ok? {
      match c
      case CallOpenLoan(_, principal, tenorDays, feeBps) => OpenNeedsNoLoan(s, a, principal, tenorDays, feeBps);
      case CallAccrueLate(_) => MaterializedOk(s, a);
      case CallMarkDefault(_) => DefaultBalances(s, a);
    }
  }

  lemma PayingCloses(s: State, c: Call, a: Address)
    requires s.Ok() && Closes(s, c, a) && Pays(c, a)
    ensures AccruedLoan(s, a).Ok? && AccruedLoan(s, a).value.amountDue <= c.paid
    ensures a in Step(s, c).nextBorrow
    ensures var l := s.LoanOf(a);
            var end := l.start + if l.tenorDays in s.minHold then s.minHold[l.tenorDays] else 0;
            Step(s, c).nextBorrow[a] == if s.now < end then end else s.now
  {
    hide State.Ok, AccrueLoan, ApplyPayment;
    if c.CallApplyPayment? {
      PaymentCloses(s, a, c.paid);
    }
  }

  lemma PaymentCloses(s: State, a: Address, paid: i128)
    requires s.Ok() && s.LoanOf(a).active && ApplyPayment(s, a, paid).Ok?
    requires !ApplyPayment(s, a, paid).value.0.LoanOf(a).active
    ensures AccruedLoan(s, a).Ok? && AccruedLoan(s, a).value.amountDue <= paid
    ensures a in ApplyPayment(s, a, paid).value.0.nextBorrow
    ensures var l := s.LoanOf(a);
            var end := l.start + if l.tenorDays in s.minHold then s.minHold[l.tenorDays] else 0;
            ApplyPayment(s, a, paid).value.0.nextBorrow[a] == if s.now < end then end else s.now
  {
    PaymentEffect(s, a, paid);
    MaterializedOk(s, a);
    hide State.Ok, AccrueLoan;
  }

  /** Openings are spaced: after a payoff, the next waits for the payoff and for the previous start plus hold. */
  lemma OpeningsSpaced(s: State, close: Call, calls: seq<Call>, open: Call, a: Address)
    requires s.Ok() && Closes(s, close, a)
    requires OpensLoan(Run(s, [close] + calls), open, a)
    ensures var next, l := Run(s, [close] + calls).now, s.LoanOf(a);
            s.now <= next && l.start + (if l.tenorDays in s.minHold then s.minHold[l.tenorDays] else 0) <= next
  {
    hide State.Ok, Step, AccrueLoan, OpensLoan;
    CloseEffect(s, close, a);
    StepOk(s, close);
    var t := Step(s, close);
    assert ([close] + calls)[1..] == calls;
    RunWaiting(t, calls, a, t.NextBorrowOf(a));
    OpenInBounds(Run(t, calls), open, a);
  }

  // ---------------------------------------------------------------- after a default

  lemma {:induction false} FindPayoff(s: State, calls: seq<Call>, a: Address) returns (i: nat)
    requires s.Ok() && s.LoanOf(a).active && !Run(s, calls).LoanOf(a).active
    ensures i < |calls| && Closes(Run(s, calls[..i]), calls[i], a)
    decreases |calls|
  {
    hide State.Ok;
    StepOk(s, calls[0]);
    if Closes(s, calls[0], a) {
      i := 0;
    } else {
      hide Step;
      i := FindPayoff(Step(s, calls[0]), calls[1..], a);
      i := i + 1;
      assert calls[..i][1..] == calls[1..][..i - 1];
    }
  }

  predicate GrantsLimit(c: Call, a: Address) { c.CallSetUserRisk? && c.a == a && 0 < c.limit }

  predicate NoLimit(s: State, a: Address) { a !in s.risk || s.risk[a].limit == 0 }

  lemma StepNoLimit(s: State, c: Call, a: Address)
    requires s.Ok() && NoLimit(s, a) && !GrantsLimit(c, a)
    ensures NoLimit(Step(s, c), a)
  {
    hide State.Ok, TryLoanCall;
    if LoanCall(c) {
      LoanCallNoLimit(s, c, a);
    }
  }

  lemma LoanCallNoLimit(s: State, c: Call, a: Address)
    requires s.Ok() && LoanCall(c) && NoLimit(s, a)
    ensures TryLoanCall(s, c).Ok? ==> NoLimit(TryLoanCall(s, c).value, a)
  {
    hide State.Ok, MaterializedAt, AccrueLoan, OpenTraps, FreshLoan;
  }

  lemma {:induction false} FindLimit(s: State, calls: seq<Call>, a: Address) returns (j: nat)
    requires s.Ok() && NoLimit(s, a) && a in Run(s, calls).risk && 0 < Run(s, calls).risk[a].limit
    ensures j < |calls| && GrantsLimit(calls[j], a)
    decreases |calls|
  {
    hide State.Ok, Step;
    if GrantsLimit(calls[0], a) {
      j := 0;
    } else {
      StepOk(s, calls[0]);
      StepNoLimit(s, calls[0], a);
      j := FindLimit(Step(s, calls[0]), calls[1..], a);
      j := j + 1;
    }
  }

  lemma DefaultLeaves(s: State, a: Address)
    requires s.Ok() && MarkDefault(s, a).Ok?
    ensures Step(s, CallMarkDefault(a)).LoanOf(a).active && NoLimit(Step(s, CallMarkDefault(a)), a)
  {
    hide State.Ok;
  }

  /**
   * After a default the borrower borrows again only once the debt was paid off in full and the operator
   * granted a positive limit again: both calls are found in the run.
   */
  lemma BorrowingAfterDefault(s: State, calls: seq<Call>, open: Call, a: Address) returns (i: nat, j: nat)
    requires s.Ok() && MarkDefault(s, a).Ok?
    requires OpensLoan(Run(s, [CallMarkDefault(a)] + calls), open, a)
    ensures i < |calls| && j < |calls| && GrantsLimit(calls[j], a)
    ensures var u := Run(s, [CallMarkDefault(a)] + calls[..i]);
            && Pays(calls[i], a) && AccruedLoan(u, a).Ok? && AccruedLoan(u, a).value.amountDue <= calls[i].paid
  {
    hide State.Ok, Step, OpensLoan, MarkDefault;
    var default := CallMarkDefault(a);
    StepOk(s, default);
    var t := Step(s, default);
    DefaultLeaves(s, a);
    assert ([default] + calls)[1..] == calls;
    OpenInBounds(Run(t, calls), open, a);
    i := FindPayoff(t, calls, a);
    assert ([default] + calls[..i])[1..] == calls[..i];
    CloseEffect(Run(t, calls[..i]), calls[i], a);
    j := FindLimit(t, calls, a);
  }
}
