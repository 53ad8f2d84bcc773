/**
 * The contract itself: storage entries that the entry points read, change and write back. Every entry
 * point is proved to commit exactly the transition LoanBook gives, and to leave no trace when it refuses.
 * Caller authorization is the environment's; `now` is the ledger timestamp.
 */
module LoanManagerContract {
  import opened LoanTypes
  import opened Accrual
  import opened LoanBook
  import opened LoanInvariant

  datatype Status = Done | Refused(error: Error)

  /** How a call's answer and the stored state follow from the transition. */
  ghost predicate Commits(before: State, t: Outcome<State>, after: State, status: Status) {
    match t
    case Ok(s) => status == Done && after == s
    case Err(e) => status == Refused(e) && after == before
  }

  class LoanManager {
    var now: u64
    var defaultGracePeriod: u64
    var minHold: map<u32, u64>
    var risk: map<Address, UserRisk>
    var offers: map<Address, LoanOffer>
    var loans: map<Address, Loan>
    var premiums: map<Address, PremiumConfig>
    var nextBorrow: map<Address, u64>

    ghost function View(): State
      reads this
    {
      State(now, defaultGracePeriod, minHold, risk, offers, loans, premiums, nextBorrow)
    }

    ghost predicate Valid()
      reads this
    {
      View().Ok()
    }

    constructor (timestamp: u64)
      ensures Valid() && View() == Initial(timestamp)
      ensures defaultGracePeriod == 86_400
      ensures minHold == map[3 := 345_600, 7 := 345_600, 14 := 604_800, 21 := 604_800, 30 := 604_800]
    {
      now := timestamp;
      defaultGracePeriod := SECONDS_PER_DAY;
      minHold := map[3 := 4 * SECONDS_PER_DAY, 7 := 4 * SECONDS_PER_DAY, 14 := 7 * SECONDS_PER_DAY,
                     21 := 7 * SECONDS_PER_DAY, 30 := 7 * SECONDS_PER_DAY];
      risk, offers, loans, premiums, nextBorrow := map[], map[], map[], map[], map[];
    }

    method ReadLoan(a: Address) returns (l: Loan)
      ensures l == View().LoanOf(a)
    {
      if a in loans { l := loans[a]; } else { l := ZERO_LOAN; }
    }

    method ReadPremium(a: Address) returns (p: PremiumConfig)
      ensures p == View().PremiumOf(a)
    {
      if a in premiums { p := premiums[a]; } else { p := NO_PREMIUM; }
    }

    method CreditLimit(a: Address) returns (limit: i128)
      ensures limit == View().CreditLimit(a)
      ensures limit == if a in risk && risk[a].kycOk && (risk[a].validUntil == 0 || now <= risk[a].validUntil)
                       then risk[a].limit else 0
    {
      if a !in risk { return 0; }
      var u := risk[a];
      if !u.kycOk { return 0; }
      if u.validUntil != 0 && now > u.validUntil { return 0; }
      return u.limit;
    }

    method SetUserRisk(a: Address, score: u32, kycOk: bool, validUntil: u64, limit: i128) returns (status: Status)
      requires Valid()
      modifies this
      ensures Valid() && Commits(old(View()), LoanBook.SetUserRisk(old(View()), a, score, kycOk, validUntil, limit),
                                 View(), status)
    {
      if limit < 0 { return Refused(InvalidParam); }
      risk := risk[a := UserRisk(score, kycOk, validUntil, now, limit)];
      return Done;
    }

    method SetLoanOffer(a: Address, tenorDays: u32, feeBps: u32, validUntil: u64, maxAmount: i128)
      returns (status: Status)
      requires Valid()
      modifies this
      ensures Valid()
      ensures Commits(old(View()),
                      LoanBook.SetLoanOffer(old(View()), a, LoanOffer(tenorDays, feeBps, validUntil, maxAmount)),
                      View(), status)
    {
      if tenorDays == 0 || feeBps == 0 || maxAmount <= 0 { return Refused(InvalidParam); }
      if validUntil <= now { return Refused(OfferExpired); }
      offers := offers[a := LoanOffer(tenorDays, feeBps, validUntil, maxAmount)];
      return Done;
    }

    method SetPremiumConfig(a: Address, premiumRate: i128, lateRate: i128) returns (status: Status)
      requires Valid()
      modifies this
      ensures Valid()
      ensures Commits(old(View()), LoanBook.SetPremiumConfig(old(View()), a, PremiumConfig(premiumRate, lateRate)),
                      View(), status)
    {
      if premiumRate < 0 || lateRate < 0 { return Refused(InvalidParam); }
      premiums := premiums[a := PremiumConfig(premiumRate, lateRate)];
      return Done;
    }

    method SetDefaultGracePeriod(secs: u64) returns (status: Status)
      requires Valid()
      modifies this
      ensures Valid() && Commits(old(View()), Try(old(View()), CallSetDefaultGracePeriod(secs)), View(), status)
    {
      defaultGracePeriod := secs;
      return Done;
    }

    method SetMinHoldForTenor(tenorDays: u32, minHoldDays: u32) returns (status: Status)
      requires Valid()
      modifies this
      ensures Valid() && Commits(old(View()), Try(old(View()), CallSetMinHold(tenorDays, minHoldDays)), View(), status)
    {
      minHold := minHold[tenorDays := minHoldDays * SECONDS_PER_DAY];
      return Done;
    }

    /** The record of a new loan: principal plus one day's floor, anchored past that day. */
    method BuildLoan(principal: i128, tenorDays: u32, feeBps: u32) returns (r: Outcome<Loan>)
      requires 0 < principal && 1 <= tenorDays && 1 <= feeBps
      ensures r == if OpenTraps(now, principal, tenorDays, feeBps) then Err(Overflow)
                   else Ok(FreshLoan(now, defaultGracePeriod, principal, tenorDays, feeBps))
    {
      OpeningFeeNonNegative(principal, feeBps, tenorDays);
      if !FitsI128(principal * feeBps) { return Err(Overflow); }
      var fullFee := principal * feeBps / BPS_DENOM;
      var f := fullFee / tenorDays;
      var oneDayFloor := if f > 0 then f else fullFee;
      if !FitsU64(now + tenorDays * SECONDS_PER_DAY) { return Err(Overflow); }
      var dueTs: u64 := now + tenorDays * SECONDS_PER_DAY;
      var anchor := dueTs;
      if f > 0 {
        var oneDay: u64 := now + SECONDS_PER_DAY;
        anchor := if oneDay < dueTs then oneDay else dueTs;
      }
      if !FitsI128(principal + oneDayFloor) { return Err(Overflow); }
      return Ok(Loan(principal, principal + oneDayFloor, now, dueTs, feeBps, defaultGracePeriod, tenorDays,
                     true, false, anchor));
    }

    method OpenLoan(a: Address, principal: i128, tenorDays: u32, feeBps: u32) returns (status: Status)
      requires Valid()
      modifies this
      ensures Valid()
      ensures Commits(old(View()), LoanBook.OpenLoan(old(View()), a, principal, tenorDays, feeBps), View(), status)
    {
      hide State.Ok;
      if principal <= 0 { return Refused(ZeroPrincipal); }
      var allowedSince := if a in nextBorrow then nextBorrow[a] else 0;
      if allowedSince != 0 && now < allowedSince { return Refused(Cooldown); }
      var l := ReadLoan(a);
      if l.active { return Refused(LoanActive); }
      var limit := CreditLimit(a);
      if principal > limit { return Refused(OverCreditLimit); }
      if a !in offers { return Refused(NoOffer); }
      var o := offers[a];
      if now > o.validUntil { return Refused(OfferExpired); }
      if tenorDays != o.tenorDays { return Refused(BadTenor); }
      if feeBps != o.feeBps { return Refused(BadFee); }
      if principal > o.maxAmount { return Refused(OverOffer); }

      OfferOk(View(), a);
      var built := BuildLoan(principal, tenorDays, feeBps);
      if built.Err? { return Refused(built.error); }
      offers := offers - {a};
      loans := loans[a := built.value];
      OpenLoanOk(old(View()), a, principal, tenorDays, feeBps);
      return Done;
    }

    method FinishClose(a: Address, l: Loan) returns (status: Status)
      requires Valid()
      modifies this
      ensures Valid()
      ensures Commits(old(View()), LoanBook.FinishClose(old(View()), a, l.start, l.tenorDays), View(), status)
    {
      hide State.Ok;
      var hold := if l.tenorDays in minHold then minHold[l.tenorDays] else 0;
      if !FitsU64(l.start + hold) { return Refused(Overflow); }
      var minFromStart: u64 := l.start + hold;
      var waitUntil := if now >= minFromStart then now else minFromStart;
      nextBorrow := nextBorrow[a := waitUntil];
      loans := loans[a := ZERO_LOAN];
      FinishCloseOk(old(View()), a, l.start, l.tenorDays);
      return Done;
    }

    method CloseLoan(a: Address, paid: i128) returns (status: Status)
      requires Valid()
      modifies this
      ensures Valid() && Commits(old(View()), LoanBook.CloseLoan(old(View()), a, paid), View(), status)
    {
      hide State.Ok;
      var l := ReadLoan(a);
      if !l.active { return Refused(NoActiveLoan); }
      var p := ReadPremium(a);
      LoanOfOk(View(), a);
      var acc := AccruedInMemory(l, p, now);
      if acc.Err? { return Refused(acc.error); }
      if paid < acc.value.amountDue { return Refused(Underpaid); }
      status := FinishClose(a, acc.value);
    }

    method MarkDefault(a: Address) returns (status: Status)
      requires Valid()
      modifies this
      ensures Valid() && Commits(old(View()), LoanBook.MarkDefault(old(View()), a), View(), status)
    {
      hide State.Ok;
      var l := ReadLoan(a);
      if !l.active { return Refused(NoActiveLoan); }
      if l.defaulted { return Refused(AlreadyDefaulted); }
      if !FitsU64(l.due + l.gracePeriod + LATE_PERIOD) { return Refused(Overflow); }
      var limitTs: u64 := l.due + l.gracePeriod + LATE_PERIOD;
      if now <= limitTs { return Refused(TooEarlyToDefault); }
      if !FitsU64(now + DEFAULT_COOLDOWN) { return Refused(Overflow); }
      l := l.(defaulted := true);
      loans := loans[a := l];
      if a in risk {
        risk := risk[a := risk[a].(limit := 0)];
      }
      nextBorrow := nextBorrow[a := now + DEFAULT_COOLDOWN];
      MarkDefaultOk(old(View()), a);
      return Done;
    }

    method PreviewOwed(a: Address) returns (r: Outcome<i128>)
      requires Valid()
      ensures r == LoanBook.PreviewOwed(View(), a)
    {
      var l := ReadLoan(a);
      var p := ReadPremium(a);
      var acc := AccruedInMemory(l, p, now);
      if acc.Err? { return Err(acc.error); }
      return Ok(acc.value.amountDue);
    }

    /** Accrue in memory and move the anchor to now; the anchor only advances. */
    method Materialize(a: Address, loan: Loan) returns (r: Outcome<Loan>)
      requires Valid() && loan == View().LoanOf(a)
      ensures r == Materialized(View(), a)
    {
      var p := ReadPremium(a);
      var acc := AccruedInMemory(loan, p, now);
      if acc.Err? { return Err(acc.error); }
      var l := acc.value;
      if now > l.lastAccrued {
        l := l.(lastAccrued := now);
      }
      return Ok(l);
    }

    method AccrueLate(a: Address) returns (status: Status)
      requires Valid()
      modifies this
      ensures Valid() && Commits(old(View()), LoanBook.AccrueLate(old(View()), a), View(), status)
    {
      hide State.Ok;
      var l := ReadLoan(a);
      if !l.active { return Done; }
      var m := Materialize(a, l);
      if m.Err? { return Refused(m.error); }
      loans := loans[a := m.value];
      AccrueLateOk(old(View()), a);
      return Done;
    }

    method ApplyPayment(a: Address, paid: i128) returns (r: Outcome<Receipt>)
      requires Valid()
      modifies this
      ensures Valid()
      ensures match LoanBook.ApplyPayment(old(View()), a, paid) {
        case Ok(t) => r == Ok(t.1) && View() == t.0
        case Err(e) => r == Err(e) && View() == old(View())
      }
    {
      hide State.Ok;
      if paid <= 0 { return Err(InvalidParam); }
      var l := ReadLoan(a);
      if !l.active { return Err(NoActiveLoan); }
      var m := Materialize(a, l);
      if m.Err? { return Err(m.error); }
      MaterializedOk(View(), a);
      l := m.value;
      if paid >= l.amountDue {
        var principalPaid := l.principal;
        var interestPaid := paid - principalPaid;
        var closed := FinishClose(a, l);
        if closed.Refused? { return Err(closed.error); }
        return Ok(Receipt(principalPaid, interestPaid, 0));
      }
      if l.defaulted { return Err(Underpaid); }
      var interestOut := l.amountDue - l.principal;
      var interestPaid := if paid < interestOut then paid else interestOut;
      var principalPaid := paid - interestPaid;
      l := l.(amountDue := l.amountDue - paid);
      l := l.(principal := l.principal - principalPaid);
      loans := loans[a := l];
      ApplyPaymentOk(old(View()), a, paid);
      return Ok(Receipt(principalPaid, interestPaid, l.amountDue));
    }
  }
}
