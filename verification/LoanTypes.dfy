/** The records, widths and errors of the loan manager contract. */
module LoanTypes {

  const U32_MAX := 0xFFFF_FFFF
  const U64_MAX := 0xFFFF_FFFF_FFFF_FFFF
  const I128_MAX := 0x7FFF_FFFF_FFFF_FFFF_FFFF_FFFF_FFFF_FFFF
  const I128_MIN := -0x8000_0000_0000_0000_0000_0000_0000_0000

  type u32 = x: int | 0 <= x <= U32_MAX
  type u64 = x: int | 0 <= x <= U64_MAX
  type i128 = x: int | I128_MIN <= x <= I128_MAX

  predicate FitsU64(x: int) { 0 <= x <= U64_MAX }
  predicate FitsI128(x: int) { I128_MIN <= x <= I128_MAX }

  const SECONDS_PER_DAY := 86_400
  const WAD := 1_000_000_000_000_000_000
  const BPS_DENOM := 10_000

  type Address = string

  /** The contract's error codes; `Overflow` is the trap of an arithmetic operation that does not fit. */
  datatype Error =
    | ZeroPrincipal | Cooldown | LoanActive | OverCreditLimit | NoOffer | OfferExpired | BadTenor | BadFee
    | OverOffer | NoActiveLoan | AlreadyDefaulted | TooEarlyToDefault | Underpaid | InvalidParam | Overflow

  datatype Outcome<+T> = Ok(value: T) | Err(error: Error) {
    predicate IsFailure() { Err? }
    function PropagateFailure<U>(): Outcome<U>
      requires Err?
    {
      Err(error)
    }
    function Extract(): T
      requires Ok?
    {
      value
    }
  }

  datatype UserRisk = UserRisk(score: u32, kycOk: bool, validUntil: u64, lastUpdate: u64, limit: i128)

  datatype LoanOffer = LoanOffer(tenorDays: u32, feeBps: u32, validUntil: u64, maxAmount: i128)

  datatype PremiumConfig = PremiumConfig(premiumRate: i128, lateRate: i128)

  datatype Loan = Loan(
    principal: i128, amountDue: i128, start: u64, due: u64, feeBps: u32, gracePeriod: u64, tenorDays: u32,
    active: bool, defaulted: bool, lastAccrued: u64)
  {
    /** Seconds in the loan's whole term. */
    function TenorSecs(): int { tenorDays * SECONDS_PER_DAY }

    /** The instant late fees may start. */
    function LateStart(): int { due + gracePeriod }
  }

  /** What an absent storage entry reads as, and what closing a loan writes. */
  const ZERO_LOAN := Loan(0, 0, 0, 0, 0, 0, 0, false, false, 0)

  const NO_PREMIUM := PremiumConfig(0, 0)

  /** What every stored loan satisfies: all zero, or live with its books in order. */
  ghost predicate LoanOk(l: Loan) {
    || l == ZERO_LOAN
    || (&& l.active
        && 0 < l.principal <= l.amountDue
        && 1 <= l.tenorDays && 1 <= l.feeBps
        && l.due == l.start + l.TenorSecs()
        && l.start + SECONDS_PER_DAY <= l.lastAccrued)
  }
}
