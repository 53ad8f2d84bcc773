/**
 * The contract in figures: what each entry point computes and stores, stated on the records' own fields, on the
 * arguments of the calls and on numbers, so that it can be read beside the contract without the definitions above it.
 */
module LoanTerms {
  import opened LoanTypes
  import opened FixedPoint
  import opened Accrual
  import opened LoanBook
  import opened LoanInvariant
  import opened LoanRuns
  import opened LoanInterest
  import opened LoanDiscipline

  // ---------------------------------------------------------------- accrual

  lemma FloorOf(x: int, d: int) returns (q: int)
    requires 0 < d
    ensures q == x / d && d * q <= x < d * (q + 1)
  {
    q := x / d;
    DivBounds(x, d);
    assert d * (q + 1) == d * q + d;
  }

  /** The cumulative interest at `ts`, as the floor it is. */
  lemma CumFloor(l: Loan, ts: int)
    requires 1 <= l.tenorDays
    ensures var d := 10_000 * 86_400 * l.tenorDays;
            var earned := l.principal * l.feeBps * ((if ts < l.due then ts else l.due) - l.start);
            d * Cum(l, ts) <= earned < d * (Cum(l, ts) + 1)
  {
    assert BPS_DENOM * l.TenorSecs() == 10_000 * 86_400 * l.tenorDays;
    var q := FloorOf(InterestProduct(l, ts), BPS_DENOM * l.TenorSecs());
  }

  /** The late fee as the floor it is. */
  lemma LateFloor(rate: nat, secs: nat, amount: nat) returns (fee: nat)
    ensures FloorFee(rate, secs, amount)
            == if rate * secs * amount <= 0x7FFF_FFFF_FFFF_FFFF_FFFF_FFFF_FFFF_FFFF then fee else 0
    ensures 1_000_000_000_000_000_000 * fee <= rate * secs * amount < 1_000_000_000_000_000_000 * (fee + 1)
  {
    MulMono(rate, 0, secs);
    MulMono(rate * secs, 0, amount);
    DivMono(0, rate * secs * amount, WAD);
    fee := FloorOf(rate * secs * amount, WAD);
  }

  /**
   * The whole accrual of a live loan: between the anchor and `now` or the due date, the difference of two floored
   * cumulative totals, and from the anchor or the end of grace on a floored linear fee on the balance with interest;
   * each left out when its product exceeds i128.
   */
  lemma AccrualInFigures(l: Loan, rate: nat, now: int) returns (hi: int, lo: int, fee: nat)
    requires LoanOk(l) && l.active && l.lastAccrued < now
    ensures var d, perSec := 10_000 * 86_400 * l.tenorDays, l.principal * l.feeBps;
            var capped := if now < l.due then now else l.due;
            && (l.lastAccrued < capped ==>
                  && d * hi <= perSec * (capped - l.start) < d * (hi + 1)
                  && d * lo <= perSec * (l.lastAccrued - l.start) < d * (lo + 1))
    ensures var perSec, capped := l.principal * l.feeBps, if now < l.due then now else l.due;
            var fits := perSec * (capped - l.start) <= 0x7FFF_FFFF_FFFF_FFFF_FFFF_FFFF_FFFF_FFFF;
            var balance := l.amountDue + if l.lastAccrued < capped && fits then hi - lo else 0;
            var graceEnd := l.due + l.gracePeriod;
            var from := if l.lastAccrued < graceEnd then graceEnd else l.lastAccrued;
            var product := if from < now then rate * (now - from) * balance else 0;
            && 1_000_000_000_000_000_000 * fee <= product < 1_000_000_000_000_000_000 * (fee + 1)
            && Accrued(l, rate, now)
               == balance + if product <= 0x7FFF_FFFF_FFFF_FFFF_FFFF_FFFF_FFFF_FFFF then fee else 0
  {
    hi, lo := Cum(l, now), Cum(l, l.lastAccrued);
    CumFloor(l, now);
    CumFloor(l, l.lastAccrued);
    fee := LateFloor(rate, LateSecs(l, now), WithInterest(l, now));
    hide Cum;
  }

  /**
   * Over any run without a payment by this borrower that ends by the end of grace, a loan whose term fits owes its
   * principal plus the pro-rata share of the fee, floored once: of the time gone since opening, but of one day at
   * least and of the term at most. Loans too small for a daily fee owe the whole fee from the start.
   */
  lemma ProRataExactly(s: State, a: Address, principal: i128, tenorDays: u32, feeBps: u32, calls: seq<Call>)
    returns (x: int)
    requires s.Ok() && OpenLoan(s, a, principal, tenorDays, feeBps).Ok? && forall c <- calls :: !Pays(c, a)
    requires var term := tenorDays * 86_400;
             principal * feeBps < 10_000 * tenorDays || tenorDays == 1
             || principal * feeBps * term <= 0x7FFF_FFFF_FFFF_FFFF_FFFF_FFFF_FFFF_FFFF
    ensures OpenLoan(s, a, principal, tenorDays, feeBps).value.Ok()
    ensures var t := Run(OpenLoan(s, a, principal, tenorDays, feeBps).value, calls);
            t.now <= s.now + tenorDays * 86_400 + s.grace ==>
              && (PreviewOwed(t, a).Ok? ==> PreviewOwed(t, a) == Ok(principal + x))
              && (s.now + tenorDays * 86_400 + s.grace <= 0xFFFF_FFFF_FFFF_FFFF ==> PreviewOwed(t, a).Ok?)
    ensures var t := Run(OpenLoan(s, a, principal, tenorDays, feeBps).value, calls);
            var term := tenorDays * 86_400;
            var gone := t.now - s.now;
            var counted := if gone < 86_400 then 86_400 else if gone < term then gone else term;
            if principal * feeBps < 10_000 * tenorDays then 10_000 * x <= principal * feeBps < 10_000 * (x + 1)
            else
              && x * 10_000 * 86_400 * tenorDays <= principal * feeBps * counted
              && principal * feeBps * counted < (x + 1) * 10_000 * 86_400 * tenorDays
  {
    hide State.Ok, OpenLoan, IsFresh, Run, PreviewOwed, State.LoanOf;
    var u := OpenLoan(s, a, principal, tenorDays, feeBps).value;
    OpenLoanOk(s, a, principal, tenorDays, feeBps);
    OpenedIsFresh(s, a, principal, tenorDays, feeBps);
    OpenedTerms(s, a, principal, tenorDays, feeBps);
    var l := u.LoanOf(a);
    x := UnpaidInFigures(u, a, l, calls);
  }

  lemma UnpaidInFigures(s: State, a: Address, l: Loan, calls: seq<Call>) returns (x: int)
    requires s.Ok() && IsFresh(l) && s.LoanOf(a) == l && s.now == l.start && forall c <- calls :: !Pays(c, a)
    requires l.principal * l.feeBps < 10_000 * l.tenorDays || l.tenorDays == 1
             || l.principal * l.feeBps * (l.tenorDays * 86_400) <= 0x7FFF_FFFF_FFFF_FFFF_FFFF_FFFF_FFFF_FFFF
    ensures var t := Run(s, calls);
            t.now <= l.due + l.gracePeriod ==>
              && (PreviewOwed(t, a).Ok? ==> PreviewOwed(t, a) == Ok(l.principal + x))
              && (l.due + l.gracePeriod <= 0xFFFF_FFFF_FFFF_FFFF ==> PreviewOwed(t, a).Ok?)
    ensures OwedByFormula(l, Run(s, calls).now) == l.principal + x
    ensures var term, gone := l.tenorDays * 86_400, Run(s, calls).now - l.start;
            var counted := if gone < 86_400 then 86_400 else if gone < term then gone else term;
            if l.principal * l.feeBps < 10_000 * l.tenorDays then
              10_000 * x <= l.principal * l.feeBps < 10_000 * (x + 1)
            else
              && x * 10_000 * 86_400 * l.tenorDays <= l.principal * l.feeBps * counted
              && l.principal * l.feeBps * counted < (x + 1) * 10_000 * 86_400 * l.tenorDays
  {
    TermFitsInFigures(l);
    var t := Run(s, calls);
    x := FormulaInFigures(l, t.now);
    hide State.Ok, Run, OwedByFormula, PreviewOwed, IsFresh, TermFits, Accrued;
    if t.now <= l.LateStart() {
      FreshIsOnFormula(l);
      OwedIgnoresSchedule(s, calls, a, l);
      FullFits(l);
    }
  }

  lemma FreshIsOnFormula(l: Loan)
    requires IsFresh(l)
    ensures OnFormula(l, l, l.start)
  {
    FreshOnFormula(l);
  }

  lemma TermFitsInFigures(l: Loan)
    requires IsFresh(l)
    ensures TermFits(l) <==>
              || l.principal * l.feeBps < 10_000 * l.tenorDays || l.tenorDays == 1
              || l.principal * l.feeBps * (l.tenorDays * 86_400) <= 0x7FFF_FFFF_FFFF_FFFF_FFFF_FFFF_FFFF_FFFF
  {
    DailyFeeIsZero(l.principal, l.feeBps, l.tenorDays);
    assert Elapsed(l, l.due) == l.tenorDays * 86_400;
  }

  /** The opening formula, as the floor it is. */
  lemma FormulaInFigures(l: Loan, t: int) returns (x: int)
    requires IsFresh(l)
    ensures OwedByFormula(l, t) == l.principal + x
    ensures var term, gone := l.tenorDays * 86_400, t - l.start;
            var counted := if gone < 86_400 then 86_400 else if gone < term then gone else term;
            if l.principal * l.feeBps < 10_000 * l.tenorDays then
              10_000 * x <= l.principal * l.feeBps < 10_000 * (x + 1)
            else
              && x * 10_000 * 86_400 * l.tenorDays <= l.principal * l.feeBps * counted
              && l.principal * l.feeBps * counted < (x + 1) * 10_000 * 86_400 * l.tenorDays
  {
    DailyFeeIsZero(l.principal, l.feeBps, l.tenorDays);
    x := OwedByFormula(l, t) - l.principal;
    if DailyFee(l.principal, l.feeBps, l.tenorDays) > 0 {
      CumFloor(l, Max(t, l.start + SECONDS_PER_DAY));
      Regrouped(x, l.tenorDays);
    } else {
      var q := FloorOf(l.principal * l.feeBps, BPS_DENOM);
    }
  }

  lemma Regrouped(x: int, tenorDays: int)
    ensures x * 10_000 * 86_400 * tenorDays == 10_000 * 86_400 * tenorDays * x
    ensures (x + 1) * 10_000 * 86_400 * tenorDays == 10_000 * 86_400 * tenorDays * (x + 1)
  {
  }

  lemma OpenedTerms(s: State, a: Address, principal: i128, tenorDays: u32, feeBps: u32)
    requires s.Ok() && OpenLoan(s, a, principal, tenorDays, feeBps).Ok?
    ensures var l := OpenLoan(s, a, principal, tenorDays, feeBps).value.LoanOf(a);
            && l.principal == principal && l.tenorDays == tenorDays && l.feeBps == feeBps && l.gracePeriod == s.grace
            && l.start == s.now && l.due == s.now + 86_400 * tenorDays
    ensures OpenLoan(s, a, principal, tenorDays, feeBps).value.now == s.now
  {
    OfferOk(s, a);
    hide State.Ok;
  }

  lemma DailyFeeIsZero(principal: nat, feeBps: nat, tenorDays: nat)
    requires 1 <= tenorDays
    ensures DailyFee(principal, feeBps, tenorDays) == 0 <==> principal * feeBps < 10_000 * tenorDays
  {
    var x := principal * feeBps;
    assert 0 <= x by { MulMono(principal, 0, feeBps); }
    DivDiv(x, BPS_DENOM, tenorDays);
    var q := FloorOf(x, BPS_DENOM * tenorDays);
    DivMono(0, x, BPS_DENOM * tenorDays);
    if q > 0 {
      MulMono(BPS_DENOM * tenorDays, 1, q);
    }
  }

  /** Principal plus full fee fits whenever the term does. */
  lemma FullFits(l: Loan)
    requires IsFresh(l) && TermFits(l)
    ensures l.principal + FullFee(l.principal, l.feeBps) <= I128_MAX
  {
    var x := l.principal * l.feeBps;
    OpeningFeeNonNegative(l.principal, l.feeBps, l.tenorDays);
    if l.tenorDays > 1 && DailyFee(l.principal, l.feeBps, l.tenorDays) > 0 {
      MulMono(l.principal, 1, l.feeBps);
      MulMono(x, 2, l.TenorSecs());
      assert InterestProduct(l, l.due) == x * l.TenorSecs();
    }
  }

  // ---------------------------------------------------------------- opening

  /**
   * Opening, whole: it succeeds exactly on an offer and a granted limit that cover the principal, after the cooldown,
   * with no loan alive and numbers that fit, and then the offer is gone and the record stands with one floored day of
   * the fee charged, or the whole fee where a day's share is nothing.
   */
  lemma OpeningInFigures(s: State, a: Address, principal: i128, tenorDays: u32, feeBps: u32)
    returns (full: int, daily: int)
    requires s.Ok()
    ensures 10_000 * full <= principal * feeBps < 10_000 * (full + 1)
    ensures 1 <= tenorDays ==> tenorDays * daily <= full < tenorDays * (daily + 1)
    ensures OpenLoan(s, a, principal, tenorDays, feeBps).Ok? <==>
              && a in s.offers && s.now <= s.offers[a].validUntil
              && tenorDays == s.offers[a].tenorDays && feeBps == s.offers[a].feeBps
              && 0 < principal <= s.offers[a].maxAmount
              && a in s.risk && s.risk[a].kycOk && (s.risk[a].validUntil == 0 || s.now <= s.risk[a].validUntil)
              && principal <= s.risk[a].limit
              && (a in s.nextBorrow ==> s.nextBorrow[a] <= s.now) && (a in s.loans ==> !s.loans[a].active)
              && principal * feeBps <= 0x7FFF_FFFF_FFFF_FFFF_FFFF_FFFF_FFFF_FFFF
              && s.now + tenorDays * 86_400 <= 0xFFFF_FFFF_FFFF_FFFF
              && principal + (if daily > 0 then daily else full) <= 0x7FFF_FFFF_FFFF_FFFF_FFFF_FFFF_FFFF_FFFF
    ensures OpenLoan(s, a, principal, tenorDays, feeBps).Ok? ==>
              var due := s.now + tenorDays * 86_400;
              OpenLoan(s, a, principal, tenorDays, feeBps).value
              == s.(offers := s.offers - {a},
                    loans := s.loans[a :=
                      Loan(principal, principal + (if daily > 0 then daily else full), s.now, due, feeBps, s.grace,
                           tenorDays, true, false, if daily > 0 then s.now + 86_400 else due)])
  {
    full := FloorOf(principal * feeBps, 10_000);
    daily := if tenorDays == 0 then 0 else full / tenorDays;
    if 1 <= tenorDays {
      daily := FloorOf(full, tenorDays);
    }
    OpensExactly(s, a, principal, tenorDays, feeBps);
    if a in s.offers {
      OfferOk(s, a);
    }
    hide State.Ok;
  }

  /** Which error refuses an opening: that of the first guard, in this order, that does not hold. */
  lemma OpeningRefusals(s: State, a: Address, principal: i128, tenorDays: u32, feeBps: u32, e: Error)
    requires s.Ok()
    ensures var waits, alive := a in s.nextBorrow && s.now < s.nextBorrow[a], a in s.loans && s.loans[a].active;
            var credit := && a in s.risk && s.risk[a].kycOk && principal <= s.risk[a].limit
                          && (s.risk[a].validUntil == 0 || s.now <= s.risk[a].validUntil);
            var clear := 0 < principal && !waits && !alive && credit;
            var offered := clear && a in s.offers && s.now <= s.offers[a].validUntil;
            OpenLoan(s, a, principal, tenorDays, feeBps) == Err(e) <==>
              match e
              case ZeroPrincipal => principal <= 0
              case Cooldown => 0 < principal && waits
              case LoanActive => 0 < principal && !waits && alive
              case OverCreditLimit => 0 < principal && !waits && !alive && !credit
              case NoOffer => clear && a !in s.offers
              case OfferExpired => clear && a in s.offers && s.offers[a].validUntil < s.now
              case BadTenor => offered && tenorDays != s.offers[a].tenorDays
              case BadFee => offered && tenorDays == s.offers[a].tenorDays && feeBps != s.offers[a].feeBps
              case OverOffer =>
                && offered && tenorDays == s.offers[a].tenorDays && feeBps == s.offers[a].feeBps
                && s.offers[a].maxAmount < principal
              case Overflow =>
                && offered && tenorDays == s.offers[a].tenorDays && feeBps == s.offers[a].feeBps
                && principal <= s.offers[a].maxAmount && OpenTraps(s.now, principal, tenorDays, feeBps)
              case _ => false
  {
    if 0 < principal {
      CreditExactly(s, a, principal);
    }
    hide OpenTraps, FreshLoan, State.CreditLimit;
  }

  // ---------------------------------------------------------------- payments

  /**
   * A payment that leaves a loan alive, whole: it succeeds exactly when it is positive, falls short of the balance,
   * the loan is not in default and accrual does not trap. It lowers the balance by itself, and the principal to the
   * new balance where that is smaller, so interest goes first; the anchor moves up to now.
   */
  lemma PartialPaymentExactly(s: State, a: Address, paid: i128)
    requires s.Ok() && s.LoanOf(a).active
    ensures ApplyPayment(s, a, paid).Ok? && ApplyPayment(s, a, paid).value.0.LoanOf(a).active
            <==> && 0 < paid && !s.LoanOf(a).defaulted && PreviewOwed(s, a).Ok? && paid < PreviewOwed(s, a).value
    ensures ApplyPayment(s, a, paid).Ok? && ApplyPayment(s, a, paid).value.0.LoanOf(a).active ==>
              var l, balance := s.loans[a], PreviewOwed(s, a).value - paid;
              var principal := if balance < l.principal then balance else l.principal;
              var anchor := if l.lastAccrued < s.now then s.now else l.lastAccrued;
              ApplyPayment(s, a, paid).value
              == (s.(loans := s.loans[a := l.(amountDue := balance, principal := principal, lastAccrued := anchor)]),
                  Receipt(l.principal - principal, paid - (l.principal - principal), balance))
  {
    LoanOfOk(s, a);
    if PreviewOwed(s, a).Ok? {
      MaterializedOk(s, a);
    }
    hide State.Ok, AccrueLoan;
    if ApplyPayment(s, a, paid).Ok? {
      hide FinishClose;
      PaymentEffect(s, a, paid);
    }
  }

  /** Which error refuses a payoff. */
  lemma PayoffRefusals(s: State, a: Address, paid: i128, e: Error)
    requires s.Ok()
    ensures var l, preview := s.LoanOf(a), PreviewOwed(s, a);
            var hold := if l.tenorDays in s.minHold then s.minHold[l.tenorDays] else 0;
            CloseLoan(s, a, paid) == Err(e) <==>
              match e
              case NoActiveLoan => !l.active
              case Underpaid => l.active && preview.Ok? && paid < preview.value
              case Overflow =>
                && l.active
                && (preview.Err? || (preview.value <= paid && 0xFFFF_FFFF_FFFF_FFFF < l.start + hold))
              case _ => false
  {
    LoanOfOk(s, a);
    hide State.Ok, Traps, Accrued;
    if s.LoanOf(a).active {
      CloseByClosing(s, a, paid);
    }
  }

  /** Which error refuses a payment. */
  lemma PaymentRefusals(s: State, a: Address, paid: i128, e: Error)
    requires s.Ok()
    ensures var l, preview := s.LoanOf(a), PreviewOwed(s, a);
            var hold := if l.tenorDays in s.minHold then s.minHold[l.tenorDays] else 0;
            ApplyPayment(s, a, paid) == Err(e) <==>
              match e
              case InvalidParam => paid <= 0
              case NoActiveLoan => 0 < paid && !l.active
              case Underpaid => 0 < paid && l.active && preview.Ok? && paid < preview.value && l.defaulted
              case Overflow =>
                && 0 < paid && l.active
                && (preview.Err? || (preview.value <= paid && 0xFFFF_FFFF_FFFF_FFFF < l.start + hold))
              case _ => false
  {
    hide State.Ok, Traps, Accrued, ApplyPayment;
    LoanOfOk(s, a);
    PaymentByCases(s, a, paid);
  }

  lemma PaymentByCases(s: State, a: Address, paid: i128)
    requires s.Ok()
    ensures paid <= 0 ==> ApplyPayment(s, a, paid) == Err(InvalidParam)
    ensures 0 < paid && !s.LoanOf(a).active ==> ApplyPayment(s, a, paid) == Err(NoActiveLoan)
    ensures 0 < paid && s.LoanOf(a).active ==>
            match AccruedLoan(s, a)
            case Err(e) => ApplyPayment(s, a, paid) == Err(e)
            case Ok(l) =>
              if paid < l.amountDue then
                if s.LoanOf(a).defaulted then ApplyPayment(s, a, paid) == Err(Underpaid)
                else ApplyPayment(s, a, paid).Ok?
              else
                match FinishClose(s, a, l.start, l.tenorDays)
                case Err(e) => ApplyPayment(s, a, paid) == Err(e)
                case Ok(_) => ApplyPayment(s, a, paid).Ok?
  {
    LoanOfOk(s, a);
    hide State.Ok, Traps, Accrued, FinishClose;
    if s.LoanOf(a).active && AccruedLoan(s, a).Ok? {
      MaterializedOk(s, a);
    }
  }

  /** Which error refuses a default. */
  lemma DefaultRefusals(s: State, a: Address, e: Error)
    requires s.Ok()
    ensures var l := s.LoanOf(a);
            var deadline := l.due + l.gracePeriod + 15 * 86_400;
            MarkDefault(s, a) == Err(e) <==>
              match e
              case NoActiveLoan => !l.active
              case AlreadyDefaulted => l.active && l.defaulted
              case TooEarlyToDefault => l.active && !l.defaulted && s.now <= deadline <= 0xFFFF_FFFF_FFFF_FFFF
              case Overflow =>
                && l.active && !l.defaulted
                && (0xFFFF_FFFF_FFFF_FFFF < deadline
                    || (deadline < s.now && 0xFFFF_FFFF_FFFF_FFFF < s.now + 30 * 86_400))
              case _ => false
  {
    hide State.Ok;
  }

  // ---------------------------------------------------------------- administration

  /** What the operator's calls accept and store; everything else stays as it was. */
  lemma AdministrationExactly(s: State, a: Address, score: u32, kycOk: bool, validUntil: u64, limit: i128,
                              offer: LoanOffer, premium: PremiumConfig)
    ensures SetUserRisk(s, a, score, kycOk, validUntil, limit)
            == if limit < 0 then Err(InvalidParam)
               else Ok(s.(risk := s.risk[a := UserRisk(score, kycOk, validUntil, s.now, limit)]))
    ensures SetLoanOffer(s, a, offer).Ok?
            <==> 1 <= offer.tenorDays && 1 <= offer.feeBps && 1 <= offer.maxAmount && s.now < offer.validUntil
    ensures SetLoanOffer(s, a, offer).Ok? ==> SetLoanOffer(s, a, offer).value == s.(offers := s.offers[a := offer])
    ensures SetPremiumConfig(s, a, premium).Ok? <==> 0 <= premium.premiumRate && 0 <= premium.lateRate
    ensures SetPremiumConfig(s, a, premium).Ok? ==>
              SetPremiumConfig(s, a, premium).value == s.(premiums := s.premiums[a := premium])
  {
  }
}
