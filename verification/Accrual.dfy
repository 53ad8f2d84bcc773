/**
 * Interest accrual of one loan: pro-rata interest up to the due date, then a linear late fee after the
 * grace period. The first half says what accrual means over unbounded integers; the second half is the
 * contract's checked 128-bit computation, proved against it.
 */
module Accrual {
  import opened Wrappers
  import opened LoanTypes
  import opened FixedPoint

  function Min(x: int, y: int): int { if x < y then x else y }
  function Max(x: int, y: int): int { if x < y then y else x }

  // ---------------------------------------------------------------- meaning, over unbounded integers

  /** Seconds of the term gone by at `ts`. */
  function Elapsed(l: Loan, ts: int): int { Min(ts, l.due) - l.start }

  /** The exact product behind the interest earned from the start of the loan up to `ts`. */
  function InterestProduct(l: Loan, ts: int): int { l.principal * l.feeBps * Elapsed(l, ts) }

  /** Cumulative interest from the start of the loan up to `ts`, capped at the due date. */
  function Cum(l: Loan, ts: int): int
    requires 1 <= l.tenorDays
  {
    InterestProduct(l, ts) / (BPS_DENOM * l.TenorSecs())
  }

  /** The fee for the whole term. */
  function FullFee(principal: int, feeBps: int): int { principal * feeBps / BPS_DENOM }

  /** One day's share of the full fee, floored a second time. */
  function DailyFee(principal: int, feeBps: int, tenorDays: int): int
    requires 1 <= tenorDays
  {
    FullFee(principal, feeBps) / tenorDays
  }

  /** Interest of the stretch from the accrual anchor to `now`; skipped when its product does not fit. */
  function PreDue(l: Loan, now: int): nat
    requires LoanOk(l)
  {
    if l.active && l.lastAccrued < Min(now, l.due) && InterestProduct(l, now) <= I128_MAX then
      CumMono(l, l.lastAccrued, now);
      Cum(l, now) - Cum(l, l.lastAccrued)
    else 0
  }

  /** The balance with pre-due interest charged up to `now`. */
  function WithInterest(l: Loan, now: int): int
    requires LoanOk(l)
  {
    l.amountDue + PreDue(l, now)
  }

  /** Seconds of lateness not yet charged at `now`. */
  function LateSecs(l: Loan, now: int): nat { Max(0, now - Max(l.lastAccrued, l.LateStart())) }

  /** Late fee on `amount`; skipped when its product does not fit. */
  function LateFee(l: Loan, amount: nat, rate: nat, now: int): nat {
    FloorFee(rate, LateSecs(l, now), amount)
  }

  /** The late fee of `secs` seconds at `rate`, in WAD fixed point. */
  function FloorFee(rate: nat, secs: nat, amount: nat): (fee: nat)
    ensures rate == 0 || secs == 0 ==> fee == 0
  {
    if rate * secs * amount <= I128_MAX then rate * secs * amount / WAD else 0
  }

  /** The balance with interest and late fees charged up to `now`. */
  function Accrued(l: Loan, rate: nat, now: int): (owed: int)
    requires LoanOk(l)
    ensures l.amountDue <= WithInterest(l, now) <= owed
    ensures rate == 0 || now <= l.LateStart() ==> owed == WithInterest(l, now)
    ensures now <= l.lastAccrued ==> owed == l.amountDue
  {
    WithInterest(l, now) + LateFee(l, WithInterest(l, now), rate, now)
  }

  /** The inputs on which accrual traps instead of returning. */
  predicate Traps(l: Loan, rate: nat, now: int)
    requires LoanOk(l)
  {
    && l.active && l.lastAccrued < now
    && (|| WithInterest(l, now) > I128_MAX
        || (rate > 0 && (!FitsU64(l.LateStart()) || Accrued(l, rate, now) > I128_MAX)))
  }

  /** The loan as it stands at `now`, or a trap. */
  function AccrueLoan(l: Loan, rate: nat, now: int): (r: Outcome<Loan>)
    requires LoanOk(l)
    ensures r.Ok? && l.active ==>
              && LoanOk(r.value) && r.value == l.(amountDue := r.value.amountDue)
              && r.value.amountDue == Accrued(l, rate, now)
  {
    if Traps(l, rate, now) then Err(Overflow)
    else if !l.active || now <= l.lastAccrued then Ok(l)
    else Ok(l.(amountDue := Accrued(l, rate, now)))
  }

  lemma ProductMono(l: Loan, a: int, b: int)
    requires LoanOk(l) && l.active && l.start <= a <= b
    ensures 0 <= InterestProduct(l, a) <= InterestProduct(l, b)
  {
    var k := l.principal * l.feeBps;
    var x, y := Elapsed(l, a), Elapsed(l, b);
    assert 0 <= k by { MulMono(l.principal, 0, l.feeBps); }
    MulMono(k, 0, x);
    MulMono(k, x, y);
  }

  lemma CumMono(l: Loan, a: int, b: int)
    requires LoanOk(l) && l.active && l.start <= a <= b
    ensures 0 <= Cum(l, a) <= Cum(l, b)
  {
    ProductMono(l, a, b);
    var d := BPS_DENOM * l.TenorSecs();
    assert 0 < d;
    DivMono(0, InterestProduct(l, a), d);
    DivMono(InterestProduct(l, a), InterestProduct(l, b), d);
  }

  /** Charge what has accrued by `t` and move the anchor to `t`; the anchor only ever moves forward. */
  function MaterializedAt(l: Loan, rate: nat, t: u64): (r: Outcome<Loan>)
    requires LoanOk(l)
    ensures r.Ok? && l.active ==>
              && LoanOk(r.value)
              && r.value == l.(amountDue := r.value.amountDue, lastAccrued := Max(l.lastAccrued, t))
              && r.value.amountDue == Accrued(l, rate, t)
  {
    var m :- AccrueLoan(l, rate, t);
    Ok(m.(lastAccrued := if t > m.lastAccrued then t else m.lastAccrued))
  }

  // ---------------------------------------------------------------- the contract's checked computation

  function CheckedMul(x: i128, y: i128): Option<i128> {
    if FitsI128(x * y) then Some(x * y) else None
  }

  /** Both multiplications of the contract succeed exactly when the full product fits. */
  lemma CheckedMulTwice(x: i128, y: i128, z: i128)
    requires 0 <= x && 0 <= y && 1 <= z
    ensures x * y * z <= I128_MAX ==> x * y <= I128_MAX
    ensures 0 <= x * y && 0 <= x * y * z
  {
    assert 0 <= x * y by { MulMono(x, 0, y); }
    MulMono(x * y, 1, z);
  }

  /** One cumulative total, in checked arithmetic. */
  method CumAt(l: Loan, ts: u64) returns (r: Option<i128>)
    requires LoanOk(l) && l.active && l.start < ts
    ensures r == if InterestProduct(l, ts) <= I128_MAX then Some(Cum(l, ts)) else None
  {
    var capped := if ts < l.due then ts else l.due;
    var el: i128 := capped - l.start;
    assert 0 <= l.principal * l.feeBps by { MulMono(l.principal, 0, l.feeBps); }
    CheckedMulTwice(l.principal, l.feeBps, el);
    var x := CheckedMul(l.principal, l.feeBps);
    if x.None? { return None; }
    var y := CheckedMul(x.value, el);
    if y.None? { return None; }
    CumMono(l, ts, ts);
    DivMono(0, y.value, BPS_DENOM * l.TenorSecs());
    DivAtLeastSelf(y.value, BPS_DENOM * l.TenorSecs());
    return Some(y.value / (BPS_DENOM * l.TenorSecs()));
  }

  lemma DivAtLeastSelf(x: int, d: int)
    requires 0 <= x && 1 <= d
    ensures 0 <= x / d <= x
  {
    MulMono(x / d, 1, d);
  }

  /** Phase one: the stretch from the anchor to `now` is the difference of two cumulative totals. */
  method ChargeInterest(loan: Loan, from: u64, now: u64) returns (r: Outcome<Loan>)
    requires LoanOk(loan) && loan.active && from == loan.lastAccrued < now
    ensures r == if WithInterest(loan, now) > I128_MAX then Err(Overflow)
                 else Ok(loan.(amountDue := WithInterest(loan, now)))
  {
    var l := loan;
    var intTo := if now < l.due then now else l.due;
    if intTo > from && l.TenorSecs() > 0 {
      assert Min(now, l.due) == intTo && Cum(l, now) == Cum(l, intTo) by { CapOnce(l, now); }
      CumMono(l, from, intTo);
      ProductMono(l, from, intTo);
      var hi := CumAt(l, intTo);
      var lo := CumAt(l, from);
      if hi.Some? && lo.Some? {
        var delta := hi.value - lo.value;
        if delta > 0 {
          if !FitsI128(l.amountDue + delta) { return Err(Overflow); }
          l := l.(amountDue := l.amountDue + delta);
        }
      }
    }
    return Ok(l);
  }

  /** Capping a time at the due date before or inside the cumulative total is the same. */
  lemma CapOnce(l: Loan, ts: int)
    requires 1 <= l.tenorDays
    ensures InterestProduct(l, ts) == InterestProduct(l, Min(ts, l.due)) && Cum(l, ts) == Cum(l, Min(ts, l.due))
  {
    assert Elapsed(l, ts) == Elapsed(l, Min(ts, l.due));
  }

  /** Phase two: linear late fee on the whole balance from the end of the grace period. */
  method ChargeLate(l: Loan, rate: i128, from: u64, now: u64) returns (r: Outcome<Loan>)
    requires l.active && 1 <= l.amountDue && from == l.lastAccrued < now && 0 <= rate
    ensures r == if rate > 0 && (!FitsU64(l.LateStart()) || l.amountDue + LateFee(l, l.amountDue, rate, now) > I128_MAX)
                 then Err(Overflow)
                 else Ok(l.(amountDue := l.amountDue + LateFee(l, l.amountDue, rate, now)))
  {
    if rate > 0 {
      if !FitsU64(l.due + l.gracePeriod) { return Err(Overflow); }
      var lateStart: u64 := l.due + l.gracePeriod;
      var accrualFrom := if from > lateStart then from else lateStart;
      if now > accrualFrom {
        var tLate: i128 := now - accrualFrom;
        CheckedMulTwice(rate, tLate, l.amountDue);
        var x := CheckedMul(rate, tLate);
        var y := if x.Some? then CheckedMul(x.value, l.amountDue) else None;
        if y.Some? {
          DivAtLeastSelf(y.value, WAD);
          var extra: i128 := y.value / WAD;
          if !FitsI128(l.amountDue + extra) { return Err(Overflow); }
          return Ok(l.(amountDue := l.amountDue + extra));
        }
      }
    }
    return Ok(l);
  }

  method AccruedInMemory(loan: Loan, p: PremiumConfig, now: u64) returns (r: Outcome<Loan>)
    requires LoanOk(loan) && 0 <= p.lateRate
    ensures r == AccrueLoan(loan, p.lateRate, now)
  {
    if !loan.active { return Ok(loan); }
    var from := if loan.lastAccrued == 0 then loan.start else loan.lastAccrued;
    if now <= from { return Ok(loan); }
    var charged := ChargeInterest(loan, from, now);
    if charged.Err? { return charged; }
    assert charged.value.amountDue == WithInterest(loan, now);
    SameLateFee(loan, charged.value, p.lateRate, now);
    r := ChargeLate(charged.value, p.lateRate, from, now);
  }

  /** The late fee reads only the loan's dates. */
  lemma SameLateFee(l: Loan, m: Loan, rate: nat, now: int)
    requires l.due == m.due && l.gracePeriod == m.gracePeriod && l.lastAccrued == m.lastAccrued
    ensures forall amount: nat :: LateFee(l, amount, rate, now) == LateFee(m, amount, rate, now)
  {
    assert LateSecs(l, now) == LateSecs(m, now);
  }
}
