/**
 * The loan manager as a state machine: what the contract stores, and what each entry point does to it.
 * A refused or trapping call leaves no trace, so every transition is a new state or an error.
 */
module LoanBook {
  import opened Wrappers
  import opened LoanTypes
  import opened FixedPoint
  import opened Accrual

  /** `Config.default_late_period`; the contract has no setter for it. */
  const LATE_PERIOD := 15 * SECONDS_PER_DAY
  const DEFAULT_COOLDOWN := 30 * SECONDS_PER_DAY

  datatype State = State(
    now: u64,
    grace: u64,
    minHold: map<u32, u64>,
    risk: map<Address, UserRisk>,
    offers: map<Address, LoanOffer>,
    loans: map<Address, Loan>,
    premiums: map<Address, PremiumConfig>,
    nextBorrow: map<Address, u64>)
  {
    function LoanOf(a: Address): Loan { if a in loans then loans[a] else ZERO_LOAN }
    function PremiumOf(a: Address): PremiumConfig { if a in premiums then premiums[a] else NO_PREMIUM }
    function RateOf(a: Address): int { PremiumOf(a).lateRate }
    function NextBorrowOf(a: Address): u64 { if a in nextBorrow then nextBorrow[a] else 0 }
    function HoldOf(tenorDays: u32): u64 { if tenorDays in minHold then minHold[tenorDays] else 0 }

    /** Effective credit limit: nothing without KYC or after expiry. */
    function CreditLimit(a: Address): i128 {
      if a !in risk || !risk[a].kycOk || (risk[a].validUntil != 0 && now > risk[a].validUntil) then 0
      else risk[a].limit
    }

    function WithLoan(a: Address, l: Loan): State { this.(loans := loans[a := l]) }

    /** What every reachable state satisfies. */
    ghost predicate Ok() {
      && (forall a <- loans :: LoanOk(loans[a]) && loans[a].start <= now
                               && loans[a].lastAccrued <= Max(loans[a].due, now))
      && (forall a <- offers :: 1 <= offers[a].tenorDays && 1 <= offers[a].feeBps && 1 <= offers[a].maxAmount)
      && (forall a <- risk :: 0 <= risk[a].limit)
      && (forall a <- premiums :: 0 <= premiums[a].lateRate)
    }
  }

  /** `Config` and the minimum holds as the constructor seeds them. */
  function Initial(now: u64): State {
    State(now, SECONDS_PER_DAY,
          map[3 := 4 * SECONDS_PER_DAY, 7 := 4 * SECONDS_PER_DAY, 14 := 7 * SECONDS_PER_DAY,
              21 := 7 * SECONDS_PER_DAY, 30 := 7 * SECONDS_PER_DAY],
          map[], map[], map[], map[], map[])
  }

  /** A loan call leaves the clock, the settings and every other borrower's record as they were. */
  ghost predicate Rewrites(s: State, t: State, a: Address) {
    && t.now == s.now && t.grace == s.grace && t.minHold == s.minHold && t.premiums == s.premiums
    && (t.loans == s.loans || t.loans == s.loans[a := t.LoanOf(a)])
  }

  /** How a payment was split, and what is still owed. */
  datatype Receipt = Receipt(principalPaid: i128, interestPaid: i128, remaining: i128)

  // ---------------------------------------------------------------- administration

  function SetUserRisk(s: State, a: Address, score: u32, kycOk: bool, validUntil: u64, limit: i128): Outcome<State> {
    if limit < 0 then Err(InvalidParam)
    else Ok(s.(risk := s.risk[a := UserRisk(score, kycOk, validUntil, s.now, limit)]))
  }

  function SetLoanOffer(s: State, a: Address, offer: LoanOffer): Outcome<State> {
    if offer.tenorDays == 0 || offer.feeBps == 0 || offer.maxAmount <= 0 then Err(InvalidParam)
    else if offer.validUntil <= s.now then Err(OfferExpired)
    else Ok(s.(offers := s.offers[a := offer]))
  }

  function SetPremiumConfig(s: State, a: Address, p: PremiumConfig): Outcome<State> {
    if p.premiumRate < 0 || p.lateRate < 0 then Err(InvalidParam)
    else Ok(s.(premiums := s.premiums[a := p]))
  }

  // ---------------------------------------------------------------- opening

  function OpeningFee(principal: int, feeBps: int, tenorDays: int): int
    requires 1 <= tenorDays
  {
    var daily := DailyFee(principal, feeBps, tenorDays);
    if daily > 0 then daily else FullFee(principal, feeBps)
  }

  /** The first guard of `open_loan` that refuses, in the contract's order. */
  function OpenRefusal(s: State, a: Address, principal: i128, tenorDays: u32, feeBps: u32): Option<Error> {
    if principal <= 0 then Some(ZeroPrincipal)
    else if s.NextBorrowOf(a) != 0 && s.now < s.NextBorrowOf(a) then Some(Cooldown)
    else if s.LoanOf(a).active then Some(LoanActive)
    else if principal > s.CreditLimit(a) then Some(OverCreditLimit)
    else if a !in s.offers then Some(NoOffer)
    else if s.now > s.offers[a].validUntil then Some(OfferExpired)
    else if tenorDays != s.offers[a].tenorDays then Some(BadTenor)
    else if feeBps != s.offers[a].feeBps then Some(BadFee)
    else if principal > s.offers[a].maxAmount then Some(OverOffer)
    else None
  }

  /** The arithmetic of `open_loan` that traps when it does not fit. */
  predicate OpenTraps(now: u64, principal: i128, tenorDays: u32, feeBps: u32)
    requires 1 <= tenorDays
  {
    || principal * feeBps > I128_MAX
    || !FitsU64(now + tenorDays * SECONDS_PER_DAY)
    || principal + OpeningFee(principal, feeBps, tenorDays) > I128_MAX
  }

  lemma OpeningFeeNonNegative(principal: int, feeBps: int, tenorDays: int)
    requires 0 <= principal && 0 <= feeBps && 1 <= tenorDays
    ensures 0 <= DailyFee(principal, feeBps, tenorDays) <= FullFee(principal, feeBps)
    ensures 0 <= OpeningFee(principal, feeBps, tenorDays) <= FullFee(principal, feeBps) <= principal * feeBps
  {
    MulMono(principal, 0, feeBps);
    DivAtLeastSelf(principal * feeBps, BPS_DENOM);
    DivAtLeastSelf(FullFee(principal, feeBps), tenorDays);
  }

  /** A loan opened at `now`: one day's interest is charged, and the anchor stands past that day. */
  function FreshLoan(now: u64, grace: u64, principal: i128, tenorDays: u32, feeBps: u32): (l: Loan)
    requires 0 < principal && 1 <= tenorDays && 1 <= feeBps && !OpenTraps(now, principal, tenorDays, feeBps)
    ensures LoanOk(l) && l.active && !l.defaulted && l.start == now && l.lastAccrued <= l.due
  {
    var due := now + tenorDays * SECONDS_PER_DAY;
    OpeningFeeNonNegative(principal, feeBps, tenorDays);
    Loan(principal, principal + OpeningFee(principal, feeBps, tenorDays), now, due, feeBps, grace, tenorDays,
         true, false, if DailyFee(principal, feeBps, tenorDays) > 0 then now + SECONDS_PER_DAY else due)
  }

  function OpenLoan(s: State, a: Address, principal: i128, tenorDays: u32, feeBps: u32): (r: Outcome<State>)
    requires s.Ok()
    ensures r.Ok? ==> Rewrites(s, r.value, a)
  {
    var refusal := OpenRefusal(s, a, principal, tenorDays, feeBps);
    if refusal.Some? then Err(refusal.value)
    else if OpenTraps(s.now, principal, tenorDays, feeBps) then Err(Overflow)
    else Ok(s.(offers := s.offers - {a}).WithLoan(a, FreshLoan(s.now, s.grace, principal, tenorDays, feeBps)))
  }

  // ---------------------------------------------------------------- accrual and repayment

  function AccruedLoan(s: State, a: Address): Outcome<Loan>
    requires s.Ok()
  {
    AccrueLoan(s.LoanOf(a), s.RateOf(a), s.now)
  }

  function PreviewOwed(s: State, a: Address): Outcome<i128>
    requires s.Ok()
  {
    var l :- AccruedLoan(s, a);
    Ok(l.amountDue)
  }

  /** The loan with its accrual charged and its anchor moved to now. */
  function Materialized(s: State, a: Address): (r: Outcome<Loan>)
    requires s.Ok()
  {
    MaterializedAt(s.LoanOf(a), s.RateOf(a), s.now)
  }

  function AccrueLate(s: State, a: Address): (r: Outcome<State>)
    requires s.Ok()
    ensures r.Ok? ==> Rewrites(s, r.value, a)
  {
    if !s.LoanOf(a).active then Ok(s)
    else
      var l :- Materialized(s, a);
      Ok(s.WithLoan(a, l))
  }

  /** Zero the loan and start the cooldown: the later of now and the end of the minimum hold. */
  function FinishClose(s: State, a: Address, start: u64, tenorDays: u32): (r: Outcome<State>)
    ensures r.Ok? ==> Rewrites(s, r.value, a)
  {
    var holdEnd := start + s.HoldOf(tenorDays);
    if !FitsU64(holdEnd) then Err(Overflow)
    else Ok(s.WithLoan(a, ZERO_LOAN).(nextBorrow := s.nextBorrow[a := Max(s.now, holdEnd)]))
  }

  function CloseLoan(s: State, a: Address, paid: i128): (r: Outcome<State>)
    requires s.Ok()
    ensures r.Ok? ==> Rewrites(s, r.value, a)
  {
    if !s.LoanOf(a).active then Err(NoActiveLoan)
    else
      var l :- AccruedLoan(s, a);
      if paid < l.amountDue then Err(Underpaid)
      else FinishClose(s, a, l.start, l.tenorDays)
  }

  function ApplyPayment(s: State, a: Address, paid: i128): (r: Outcome<(State, Receipt)>)
    requires s.Ok()
    ensures r.Ok? ==> Rewrites(s, r.value.0, a)
  {
    if paid <= 0 then Err(InvalidParam)
    else if !s.LoanOf(a).active then Err(NoActiveLoan)
    else
      var l :- Materialized(s, a);
      if paid >= l.amountDue then
        var closed :- FinishClose(s, a, l.start, l.tenorDays);
        Ok((closed, Receipt(l.principal, paid - l.principal, 0)))
      else if l.defaulted then Err(Underpaid)
      else
        var interest := Min(paid, l.amountDue - l.principal);
        var repaid := l.(amountDue := l.amountDue - paid, principal := l.principal - (paid - interest));
        Ok((s.WithLoan(a, repaid), Receipt(paid - interest, interest, repaid.amountDue)))
  }

  function MarkDefault(s: State, a: Address): (r: Outcome<State>)
    requires s.Ok()
    ensures r.Ok? ==> Rewrites(s, r.value, a)
  {
    var l := s.LoanOf(a);
    if !l.active then Err(NoActiveLoan)
    else if l.defaulted then Err(AlreadyDefaulted)
    else if !FitsU64(l.due + l.gracePeriod + LATE_PERIOD) then Err(Overflow)
    else if s.now <= l.due + l.gracePeriod + LATE_PERIOD then Err(TooEarlyToDefault)
    else if !FitsU64(s.now + DEFAULT_COOLDOWN) then Err(Overflow)
    else Ok(s.WithLoan(a, l.(defaulted := true)).(
            risk := if a in s.risk then s.risk[a := s.risk[a].(limit := 0)] else s.risk,
            nextBorrow := s.nextBorrow[a := s.now + DEFAULT_COOLDOWN]))
  }

  // ---------------------------------------------------------------- calls and runs

  datatype Call =
    | CallSetUserRisk(a: Address, score: u32, kycOk: bool, validUntil: u64, limit: i128)
    | CallSetLoanOffer(a: Address, offer: LoanOffer)
    | CallSetPremiumConfig(a: Address, premium: PremiumConfig)
    | CallSetDefaultGracePeriod(secs: u64)
    | CallSetMinHold(tenorDays: u32, days: u32)
    | CallOpenLoan(a: Address, principal: i128, tenorDays: u32, feeBps: u32)
    | CallCloseLoan(a: Address, paid: i128)
    | CallApplyPayment(a: Address, paid: i128)
    | CallAccrueLate(a: Address)
    | CallMarkDefault(a: Address)
    | TimePasses(until: u64)

  /** Calls that go to a loan record. */
  predicate LoanCall(c: Call) {
    c.CallOpenLoan? || c.CallCloseLoan? || c.CallApplyPayment? || c.CallAccrueLate? || c.CallMarkDefault?
  }

  function TryLoanCall(s: State, c: Call): (r: Outcome<State>)
    requires s.Ok() && LoanCall(c)
    ensures r.Ok? ==> Rewrites(s, r.value, c.a)
  {
    match c
    case CallOpenLoan(a, principal, tenorDays, feeBps) => OpenLoan(s, a, principal, tenorDays, feeBps)
    case CallCloseLoan(a, paid) => CloseLoan(s, a, paid)
    case CallApplyPayment(a, paid) =>
      var r :- ApplyPayment(s, a, paid);
      Ok(r.0)
    case CallAccrueLate(a) => AccrueLate(s, a)
    case CallMarkDefault(a) => MarkDefault(s, a)
  }

  /** One call, or the ledger clock moving; it never moves back. */
  function Try(s: State, c: Call): Outcome<State>
    requires s.Ok()
  {
    match c
    case CallSetUserRisk(a, score, kycOk, validUntil, limit) => SetUserRisk(s, a, score, kycOk, validUntil, limit)
    case CallSetLoanOffer(a, offer) => SetLoanOffer(s, a, offer)
    case CallSetPremiumConfig(a, premium) => SetPremiumConfig(s, a, premium)
    case CallSetDefaultGracePeriod(secs) => Ok(s.(grace := secs))
    case CallSetMinHold(tenorDays, days) => Ok(s.(minHold := s.minHold[tenorDays := days * SECONDS_PER_DAY]))
    case TimePasses(until) => Ok(s.(now := if s.now < until then until else s.now))
    case _ => TryLoanCall(s, c)
  }

  /** A failing call reverts. */
  function Step(s: State, c: Call): State
    requires s.Ok()
  {
    var r := Try(s, c);
    if r.Ok? then r.value else s
  }
}
