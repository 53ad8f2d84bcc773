/** What the accrual rules guarantee about a single loan, whatever its size, rate and age. */
module AccrualLaws {
  import opened LoanTypes
  import opened FixedPoint
  import opened Accrual

  // ---------------------------------------------------------------- the telescope

  /** The floor charged at opening is the cumulative interest of the first day: two floors equal one. */
  lemma FloorIsFirstDay(l: Loan)
    requires LoanOk(l) && l.active
    ensures DailyFee(l.principal, l.feeBps, l.tenorDays) == Cum(l, l.start + SECONDS_PER_DAY)
  {
    var x := l.principal * l.feeBps;
    assert 0 <= x by { MulMono(l.principal, 0, l.feeBps); }
    assert Elapsed(l, l.start + SECONDS_PER_DAY) == SECONDS_PER_DAY;
    assert BPS_DENOM * l.TenorSecs() == BPS_DENOM * l.tenorDays * SECONDS_PER_DAY;
    DivCancel(x, BPS_DENOM * l.tenorDays, SECONDS_PER_DAY);
    DivDiv(x, BPS_DENOM, l.tenorDays);
  }

  /** From the due date on, the cumulative interest is the full fee. */
  lemma CumAtDue(l: Loan, ts: int)
    requires LoanOk(l) && l.active && l.due <= ts
    ensures Cum(l, ts) == FullFee(l.principal, l.feeBps)
  {
    var x := l.principal * l.feeBps;
    assert Elapsed(l, ts) == l.TenorSecs();
    DivCancel(x, BPS_DENOM, l.TenorSecs());
  }

  /** Interest still to come between `ts` and the due date. */
  function Remaining(l: Loan, ts: int): int
    requires 1 <= l.tenorDays
  {
    Cum(l, l.due) - Cum(l, ts)
  }

  /** Lowering the principal mid-term can raise the interest still to come by at most one unit. */
  lemma RepricingCostsAtMostOne(l: Loan, m: Loan, ts: int)
    requires LoanOk(l) && l.active && l.start <= ts
    requires 0 <= m.principal <= l.principal
    requires m.feeBps == l.feeBps && m.start == l.start && m.due == l.due && m.tenorDays == l.tenorDays
    ensures Remaining(m, ts) <= Remaining(l, ts) + 1
  {
    var d := BPS_DENOM * l.TenorSecs();
    var gone, left := Elapsed(l, ts), l.TenorSecs() - Elapsed(l, ts);
    var p, q := l.principal * l.feeBps, m.principal * m.feeBps;
    assert q <= p by { MulMono(l.feeBps, m.principal, l.principal); }
    assert InterestProduct(l, l.due) == p * gone + p * left;
    assert InterestProduct(m, l.due) == q * gone + q * left;
    assert q * left <= p * left by { MulMono(left, q, p); }
    DivSplit(q * gone, q * left, d);
    DivSplit(p * gone, p * left, d);
    DivMono(q * left, p * left, d);
  }

  // ---------------------------------------------------------------- checked against unbounded

  /** The late fee if no product could overflow. */
  function ExactFee(rate: nat, secs: nat, amount: nat): nat { rate * secs * amount / WAD }

  predicate FeeFits(rate: nat, secs: nat, amount: nat) { rate * secs * amount <= I128_MAX }

  function IdealInterest(l: Loan, now: int): nat
    requires LoanOk(l)
  {
    if l.active && l.lastAccrued < Min(now, l.due) then
      CumMono(l, l.lastAccrued, now);
      l.amountDue + Cum(l, now) - Cum(l, l.lastAccrued)
    else l.amountDue
  }

  /** What would be owed if no product could overflow. */
  function Ideal(l: Loan, rate: nat, now: int): int
    requires LoanOk(l)
  {
    IdealInterest(l, now) + ExactFee(rate, LateSecs(l, now), IdealInterest(l, now))
  }

  lemma FeeBounds(rate: nat, secs: nat, low: nat, high: nat)
    requires low <= high
    ensures FloorFee(rate, secs, low) <= ExactFee(rate, secs, high)
    ensures FeeFits(rate, secs, high) ==> FeeFits(rate, secs, low)
    ensures FeeFits(rate, secs, low) ==> FloorFee(rate, secs, low) == ExactFee(rate, secs, low)
    ensures FloorFee(rate, secs, low) <= I128_MAX / WAD
  {
    MulMono(rate * secs, low, high);
    DivMono(rate * secs * low, rate * secs * high, WAD);
    if FeeFits(rate, secs, low) {
      DivMono(rate * secs * low, I128_MAX, WAD);
    }
  }

  /** The skip only ever favours the borrower, and without a skip the checked result is exact. */
  lemma CheckedRefinesIdeal(l: Loan, rate: nat, now: int)
    requires LoanOk(l)
    ensures Accrued(l, rate, now) <= Ideal(l, rate, now)
    ensures InterestProduct(l, now) <= I128_MAX && FeeFits(rate, LateSecs(l, now), WithInterest(l, now))
            ==> Accrued(l, rate, now) == Ideal(l, rate, now)
    ensures !FeeFits(rate, LateSecs(l, now), WithInterest(l, now)) ==> Accrued(l, rate, now) == WithInterest(l, now)
  {
    InterestRefinesIdeal(l, now);
    var secs, low, high := LateSecs(l, now), WithInterest(l, now), IdealInterest(l, now);
    FeeBounds(rate, secs, low, high);
    assert Accrued(l, rate, now) == low + FloorFee(rate, secs, low);
    assert Ideal(l, rate, now) == high + ExactFee(rate, secs, high);
  }

  lemma InterestRefinesIdeal(l: Loan, now: int)
    requires LoanOk(l)
    ensures WithInterest(l, now) <= IdealInterest(l, now)
    ensures InterestProduct(l, now) <= I128_MAX ==> WithInterest(l, now) == IdealInterest(l, now)
  {
    if l.active && l.lastAccrued < Min(now, l.due) {
      CumMono(l, l.lastAccrued, now);
      var gain := Cum(l, now) - Cum(l, l.lastAccrued);
      assert IdealInterest(l, now) == l.amountDue + gain;
      assert PreDue(l, now) == if InterestProduct(l, now) <= I128_MAX then gain else 0;
    }
  }

  const HALF_RANGE := 0x4000_0000_0000_0000_0000_0000_0000_0000   // 2^126

  lemma InterestBound(l: Loan, now: int)
    requires LoanOk(l)
    ensures PreDue(l, now) <= I128_MAX / (BPS_DENOM * SECONDS_PER_DAY)
  {
    if l.active && l.lastAccrued < Min(now, l.due) && InterestProduct(l, now) <= I128_MAX {
      CumMono(l, l.lastAccrued, now);
      var d := BPS_DENOM * l.TenorSecs();
      DivMono(InterestProduct(l, now), I128_MAX, d);
      LargerDivisor(I128_MAX, BPS_DENOM * SECONDS_PER_DAY, d);
    }
  }

  lemma LargerDivisor(x: nat, d: int, e: int)
    requires 0 < d <= e
    ensures x / e <= x / d
  {
    DivBounds(x, e);
    assert 0 <= x / e by { DivMono(0, x, e); }
    MulMono(x / e, d, e);
    DivAtLeast(x, d, x / e);
  }

  /**
   * Accrual faults exactly when time has passed the anchor and either a late rate meets a due date whose grace
   * period does not end inside 64 bits, or the balance itself leaves i128. Up to half of i128 the latter cannot be.
   */
  lemma TrapsExactly(l: Loan, rate: nat, now: u64)
    requires LoanOk(l) && l.active
    ensures Traps(l, rate, now) <==>
              l.lastAccrued < now && ((rate > 0 && !FitsU64(l.LateStart())) || Accrued(l, rate, now) > I128_MAX)
    ensures l.amountDue <= HALF_RANGE ==> Accrued(l, rate, now) <= I128_MAX
  {
    InterestBound(l, now);
    FeeBounds(rate, LateSecs(l, now), WithInterest(l, now), WithInterest(l, now));
  }

  // ---------------------------------------------------------------- when waiting makes a loan cheaper

  /**
   * The balance at `t1` is no more than at a later `t2` exactly so: if no charged interest is at stake, when there is
   * no late fee to lose or the later late product fits. If interest shown at `t1` is skipped at `t2`, what is left of
   * the comparison is that interest against the late fee of `t2`, and the condition is that inequality itself.
   */
  lemma MonotoneExactly(l: Loan, rate: nat, t1: int, t2: int)
    requires LoanOk(l) && l.active && t1 <= t2
    ensures Accrued(l, rate, t1) <= Accrued(l, rate, t2)
            <==> if InterestProduct(l, t2) <= I128_MAX || PreDue(l, t1) == 0 then
                   LateFee(l, WithInterest(l, t1), rate, t1) == 0
                   || FeeFits(rate, LateSecs(l, t2), WithInterest(l, t2))
                 else PreDue(l, t1) <= LateFee(l, l.amountDue, rate, t2)
  {
    InterestStays(l, t1, t2);
    if InterestProduct(l, t2) <= I128_MAX || PreDue(l, t1) == 0 {
      if l.LateStart() < t1 && l.lastAccrued < t1 {
        assert WithInterest(l, t1) == WithInterest(l, t2);
        LongerFee(rate, LateSecs(l, t1), LateSecs(l, t2), WithInterest(l, t1));
      }
    }
  }

  /** Interest once shown stays exactly while the product fits; past the due date it no longer moves. */
  lemma InterestStays(l: Loan, t1: int, t2: int)
    requires LoanOk(l) && l.active && t1 <= t2
    ensures InterestProduct(l, t2) <= I128_MAX ==> WithInterest(l, t1) <= WithInterest(l, t2)
    ensures InterestProduct(l, t2) > I128_MAX && PreDue(l, t1) > 0 ==> PreDue(l, t2) == 0 && t1 < l.due
    ensures PreDue(l, t1) == 0 && InterestProduct(l, t2) > I128_MAX ==> PreDue(l, t2) == 0
    ensures l.due <= t1 ==> WithInterest(l, t1) == WithInterest(l, t2)
  {
    if l.lastAccrued < t1 {
      ProductMono(l, t1, t2);
      CumMono(l, t1, t2);
    }
    if l.lastAccrued < t2 {
      CumMono(l, l.lastAccrued, t2);
    }
    if l.due <= t1 {
      CapOnce(l, t1);
      CapOnce(l, t2);
    }
  }

  /** Within grace, where no late fee is due, the balance falls exactly when interest it showed is skipped later. */
  lemma FallsBeforeLateExactly(l: Loan, rate: nat, t1: int, t2: int)
    requires LoanOk(l) && l.active && t1 <= t2 <= l.LateStart()
    ensures Accrued(l, rate, t2) < Accrued(l, rate, t1) <==> InterestProduct(l, t2) > I128_MAX && PreDue(l, t1) > 0
  {
    MonotoneExactly(l, rate, t1, t2);
  }

  lemma LongerFee(rate: nat, short: nat, long: nat, amount: nat)
    requires short <= long
    ensures FeeFits(rate, long, amount) ==> FloorFee(rate, short, amount) <= FloorFee(rate, long, amount)
    ensures !FeeFits(rate, long, amount) ==> FloorFee(rate, long, amount) == 0
  {
    MulMono(rate, short, long);
    MulMono(amount, rate * short, rate * long);
    DivMono(rate * short * amount, rate * long * amount, WAD);
  }

  // ---------------------------------------------------------------- compounding of the late fee

  function Compound(amount: nat, rate: nat, stretches: seq<nat>): nat
    decreases |stretches|
  {
    if stretches == [] then amount
    else Compound(amount + ExactFee(rate, stretches[0], amount), rate, stretches[1..])
  }

  function Total(stretches: seq<nat>): nat {
    if stretches == [] then 0 else stretches[0] + Total(stretches[1..])
  }

  function Growth(rate: nat, stretches: seq<nat>): nat {
    if stretches == [] then 1 else (WAD + rate * stretches[0]) * Growth(rate, stretches[1..])
  }

  function WadPow(n: nat): nat { if n == 0 then 1 else WAD * WadPow(n - 1) }

  /** Splitting lateness into n charges loses at most n - 1 units against one charge. */
  lemma {:induction false} CompoundAtLeastSingle(amount: nat, rate: nat, stretches: seq<nat>)
    requires stretches != []
    ensures Compound(amount, rate, stretches)
            >= amount + ExactFee(rate, Total(stretches), amount) - (|stretches| - 1)
    decreases |stretches|
  {
    var t, rest := stretches[0], stretches[1..];
    if rest == [] {
      assert Total(stretches) == t;
      assert Compound(amount, rate, stretches) == amount + ExactFee(rate, t, amount);
    } else {
      var grown := amount + ExactFee(rate, t, amount);
      CompoundAtLeastSingle(grown, rate, rest);
      FeeOnLarger(rate, Total(rest), amount, grown);
      FeeSplit(rate, t, Total(rest), amount);
    }
  }

  lemma FeeOnLarger(rate: nat, secs: nat, low: nat, high: nat)
    requires low <= high
    ensures ExactFee(rate, secs, low) <= ExactFee(rate, secs, high)
  {
    MulMono(rate * secs, low, high);
    DivMono(rate * secs * low, rate * secs * high, WAD);
  }

  lemma FeeSplit(rate: nat, s: nat, t: nat, amount: nat)
    ensures ExactFee(rate, s + t, amount) <= ExactFee(rate, s, amount) + ExactFee(rate, t, amount) + 1
  {
    var x, y := rate * s * amount, rate * t * amount;
    assert rate * (s + t) * amount == x + y;
    DivSplit(x, y, WAD);
  }

  /** Compounding never exceeds the exact product of growth factors. */
  lemma {:induction false} CompoundAtMostGrowth(amount: nat, rate: nat, stretches: seq<nat>)
    ensures Compound(amount, rate, stretches) * WadPow(|stretches|) <= amount * Growth(rate, stretches)
    decreases |stretches|
  {
    if stretches != [] {
      var t, rest := stretches[0], stretches[1..];
      var grown := amount + ExactFee(rate, t, amount);
      CompoundAtMostGrowth(grown, rate, rest);
      GrowthStep(amount, rate, t, grown, Compound(grown, rate, rest), WadPow(|rest|), Growth(rate, rest));
    }
  }

  lemma GrowthStep(amount: nat, rate: nat, t: nat, grown: nat, end: nat, pow: nat, g: nat)
    requires grown == amount + ExactFee(rate, t, amount)
    requires end * pow <= grown * g
    ensures end * (WAD * pow) <= amount * ((WAD + rate * t) * g)
  {
    var factor := WAD + rate * t;
    assert grown * WAD <= amount * factor by {
      var x := rate * t * amount;
      assert WAD * (x / WAD) <= x;
      assert amount * factor == amount * WAD + x;
    }
    MulMono(g, grown * WAD, amount * factor);
    MulMono(WAD, end * pow, grown * g);
    assert end * (WAD * pow) == WAD * (end * pow);
    assert WAD * (grown * g) == g * (grown * WAD);
    assert g * (amount * factor) == amount * (factor * g);
  }

  // ---------------------------------------------------------------- late schedules on the contract

  /** Accruing at each of the times goes through and skips nothing. */
  predicate ScheduleFits(l: Loan, rate: nat, times: seq<u64>)
    requires LoanOk(l) && l.active
    decreases |times|
  {
    times != [] ==>
      && FeeFits(rate, LateSecs(l, times[0]), WithInterest(l, times[0]))
      && MaterializedAt(l, rate, times[0]).Ok?
      && ScheduleFits(MaterializedAt(l, rate, times[0]).value, rate, times[1..])
  }

  function AccruedAlong(l: Loan, rate: nat, times: seq<u64>): Loan
    requires LoanOk(l) && l.active && ScheduleFits(l, rate, times)
    decreases |times|
  {
    if times == [] then l else AccruedAlong(MaterializedAt(l, rate, times[0]).value, rate, times[1..])
  }

  /** The late seconds each accrual of the schedule charges for. */
  function Stretches(l: Loan, rate: nat, times: seq<u64>): (r: seq<nat>)
    requires LoanOk(l) && l.active && ScheduleFits(l, rate, times)
    ensures |r| == |times|
    decreases |times|
  {
    if times == [] then []
    else [LateSecs(l, times[0])] + Stretches(MaterializedAt(l, rate, times[0]).value, rate, times[1..])
  }

  predicate Ascending(times: seq<u64>) { forall i, j :: 0 <= i < j < |times| ==> times[i] <= times[j] }

  /** However a stretch of time is split, its late seconds add up to the same: grace is never charged. */
  lemma {:induction false} StretchesAddUp(l: Loan, rate: nat, times: seq<u64>)
    requires LoanOk(l) && l.active && ScheduleFits(l, rate, times) && Ascending(times) && times != []
    ensures Total(Stretches(l, rate, times)) == LateSecs(l, times[|times| - 1])
    decreases |times|
  {
    var m := MaterializedAt(l, rate, times[0]).value;
    var rest := times[1..];
    assert Stretches(l, rate, times)[1..] == Stretches(m, rate, rest);
    if rest == [] {
      assert Total(Stretches(m, rate, rest)) == 0;
    } else {
      StretchesAddUp(m, rate, rest);
      assert rest[|rest| - 1] == times[|times| - 1];
    }
  }

  lemma {:induction false} CompoundMono(low: nat, high: nat, rate: nat, stretches: seq<nat>)
    requires low <= high
    ensures Compound(low, rate, stretches) <= Compound(high, rate, stretches)
    decreases |stretches|
  {
    hide ExactFee;
    if stretches != [] {
      FeeOnLarger(rate, stretches[0], low, high);
      CompoundMono(low + ExactFee(rate, stretches[0], low), high + ExactFee(rate, stretches[0], high),
                   rate, stretches[1..]);
    }
  }

  lemma NoSecsNoFee(rate: nat, amount: nat)
    ensures ExactFee(rate, 0, amount) == 0
  {
    assert rate * 0 * amount == 0;
  }

  lemma SameCum(l: Loan, m: Loan, ts: int)
    requires 1 <= l.tenorDays && m == l.(amountDue := m.amountDue, lastAccrued := m.lastAccrued)
    ensures InterestProduct(l, ts) == InterestProduct(m, ts) && Cum(l, ts) == Cum(m, ts)
  {
    assert Elapsed(l, ts) == Elapsed(m, ts);
  }

  /** What one charge makes of a loan: interest in up to `t`, plus the late fee, which the schedule does not skip. */
  lemma ChargeAt(l: Loan, rate: nat, t: u64)
    requires LoanOk(l) && l.active
    requires FeeFits(rate, LateSecs(l, t), WithInterest(l, t)) && MaterializedAt(l, rate, t).Ok?
    ensures var m := MaterializedAt(l, rate, t).value;
            && LoanOk(m) && m == l.(amountDue := m.amountDue, lastAccrued := Max(l.lastAccrued, t))
            && m.amountDue == WithInterest(l, t) + ExactFee(rate, LateSecs(l, t), WithInterest(l, t))
            && (t <= l.LateStart() || t <= l.lastAccrued ==>
                  LateSecs(l, t) == 0 && m.amountDue == WithInterest(l, t))
            && (t <= l.lastAccrued ==> m == l)
  {
    FeeBounds(rate, LateSecs(l, t), WithInterest(l, t), WithInterest(l, t));
    NoSecsNoFee(rate, WithInterest(l, t));
  }

  /** Interest charged at `t` and read at `last` is no less than read at `last` alone. */
  lemma InterestTelescopes(l: Loan, m: Loan, t: u64, last: int)
    requires LoanOk(l) && l.active && l.lastAccrued < t <= last
    requires LoanOk(m) && m == l.(amountDue := m.amountDue, lastAccrued := t)
    ensures WithInterest(l, last) - WithInterest(l, t) <= PreDue(m, last)
    ensures PreDue(m, last) <= IdealInterest(m, last) - m.amountDue <= IdealInterest(l, last) - IdealInterest(l, t)
  {
    SameCum(l, m, last);
    SameCum(l, m, t);
    ProductMono(l, t, last);
    CumMono(l, l.lastAccrued, t);
    CumMono(l, t, last);
    CapOnce(l, t);
    CapOnce(l, last);
  }

  /** One charge never lowers what a later reading with interest shows, late fee included. */
  lemma ChargeKeepsUp(l: Loan, rate: nat, t: u64, last: u64)
    requires LoanOk(l) && l.active && t <= last
    requires FeeFits(rate, LateSecs(l, t), WithInterest(l, t)) && MaterializedAt(l, rate, t).Ok?
    ensures var m := MaterializedAt(l, rate, t).value;
            WithInterest(l, last) + ExactFee(rate, LateSecs(l, t), WithInterest(l, last)) <= WithInterest(m, last)
  {
    var m := MaterializedAt(l, rate, t).value;
    ChargeAt(l, rate, t);
    NoSecsNoFee(rate, WithInterest(l, last));
    if l.lastAccrued < t {
      InterestTelescopes(l, m, t, last);
      InterestStays(l, t, last);
      hide MaterializedAt, PreDue, ExactFee;
    }
  }

  /** One charge never gets ahead of the interest ideally due, late fee included. */
  lemma ChargeStaysBehind(l: Loan, rate: nat, t: u64, last: u64)
    requires LoanOk(l) && l.active && t <= last
    requires FeeFits(rate, LateSecs(l, t), WithInterest(l, t)) && MaterializedAt(l, rate, t).Ok?
    ensures var m := MaterializedAt(l, rate, t).value;
            IdealInterest(m, last) <= IdealInterest(l, last) + ExactFee(rate, LateSecs(l, t), IdealInterest(l, last))
  {
    var m := MaterializedAt(l, rate, t).value;
    ChargeAt(l, rate, t);
    NoSecsNoFee(rate, IdealInterest(l, last));
    if l.lastAccrued < t {
      InterestTelescopes(l, m, t, last);
      InterestRefinesIdeal(l, t);
      FeeOnLarger(rate, LateSecs(l, t), WithInterest(l, t), IdealInterest(l, last));
      hide MaterializedAt, PreDue, ExactFee, IdealInterest;
    }
  }

  lemma OwedIsNatural(l: Loan, now: int)
    requires LoanOk(l)
    ensures 0 <= l.amountDue <= WithInterest(l, now)
  {
  }

  lemma NothingPending(l: Loan, now: int)
    requires LoanOk(l) && now <= l.lastAccrued
    ensures WithInterest(l, now) == IdealInterest(l, now) == l.amountDue
  {
  }

  lemma AscendingTail(times: seq<u64>)
    requires times != [] && Ascending(times)
    ensures Ascending(times[1..]) && times[0] <= times[|times| - 1]
    ensures times[1..] != [] ==> times[1..][|times| - 2] == times[|times| - 1]
  {
  }

  /** The first charge of a schedule, and what is left of the schedule after it. */
  lemma ScheduleStep(l: Loan, rate: nat, times: seq<u64>)
    requires LoanOk(l) && l.active && times != [] && ScheduleFits(l, rate, times)
    ensures FeeFits(rate, LateSecs(l, times[0]), WithInterest(l, times[0])) && MaterializedAt(l, rate, times[0]).Ok?
    ensures var m := MaterializedAt(l, rate, times[0]).value;
            && LoanOk(m) && m.active && times[0] <= m.lastAccrued && ScheduleFits(m, rate, times[1..])
            && AccruedAlong(l, rate, times) == AccruedAlong(m, rate, times[1..])
            && Stretches(l, rate, times) == [LateSecs(l, times[0])] + Stretches(m, rate, times[1..])
  {
  }

  /**
   * Along any ascending schedule that skips no late fee, for every live loan: the balance is at least the compounding
   * of what a reading at the end shows with interest, and at most that of the interest ideally due.
   */
  lemma {:induction false} AccruedAlongBetween(l: Loan, rate: nat, times: seq<u64>)
    requires LoanOk(l) && l.active && times != [] && Ascending(times) && ScheduleFits(l, rate, times)
    ensures var last, stretches, end := times[|times| - 1], Stretches(l, rate, times), AccruedAlong(l, rate, times);
            && Compound(WithInterest(l, last), rate, stretches) <= end.amountDue
            && end.amountDue <= Compound(IdealInterest(l, last), rate, stretches)
    decreases |times|
  {
    hide *;
    AscendingTail(times);
    ScheduleStep(l, rate, times);
    var m, rest, last := MaterializedAt(l, rate, times[0]).value, times[1..], times[|times| - 1];
    OwedIsNatural(l, last);
    OwedIsNatural(m, last);
    ChargeKeepsUp(l, rate, times[0], last);
    ChargeStaysBehind(l, rate, times[0], last);
    var first, more := LateSecs(l, times[0]), Stretches(m, rate, rest);
    if rest == [] {
      NothingPending(m, last);
    }
    var low, high := WithInterest(l, last), IdealInterest(l, last);
    CompoundStep(low, rate, first, more);
    CompoundStep(high, rate, first, more);
    CompoundMono(low + ExactFee(rate, first, low), WithInterest(m, last), rate, more);
    CompoundMono(IdealInterest(m, last), high + ExactFee(rate, first, high), rate, more);
    if rest == [] {
      CompoundNothing(m, rate, rest);
    } else {
      AccruedAlongBetween(m, rate, rest);
    }
  }

  lemma CompoundNothing(l: Loan, rate: nat, times: seq<u64>)
    requires LoanOk(l) && l.active && times == []
    ensures ScheduleFits(l, rate, times)
    ensures Compound(l.amountDue, rate, Stretches(l, rate, times)) == l.amountDue
    ensures l.amountDue == AccruedAlong(l, rate, times).amountDue
  {
  }

  lemma CompoundStep(amount: nat, rate: nat, first: nat, more: seq<nat>)
    ensures Compound(amount, rate, [first] + more) == Compound(amount + ExactFee(rate, first, amount), rate, more)
  {
    assert ([first] + more)[1..] == more;
  }

  /** When the product of the schedule's end fits, or the interest is in, the balance is exactly that compounding. */
  lemma AccruedAlongCompounds(l: Loan, rate: nat, times: seq<u64>)
    requires LoanOk(l) && l.active && times != [] && Ascending(times) && ScheduleFits(l, rate, times)
    requires InterestProduct(l, times[|times| - 1]) <= I128_MAX || l.due <= l.lastAccrued
    ensures AccruedAlong(l, rate, times).amountDue
            == Compound(WithInterest(l, times[|times| - 1]), rate, Stretches(l, rate, times))
  {
    AccruedAlongBetween(l, rate, times);
    InterestRefinesIdeal(l, times[|times| - 1]);
  }

  lemma MulMonoLeft(k: nat, x: int, y: int)
    requires x <= y
    ensures x * k <= y * k
  {
    MulMono(k, x, y);
  }

  /**
   * Any ascending schedule of charges that skips no late fee, on every live loan, ends within n - 1 units below a
   * single charge at the last instant, and never above the exact compound growth of the balance with all interest in.
   */
  lemma LateScheduleBounds(l: Loan, rate: nat, times: seq<u64>)
    requires LoanOk(l) && l.active && times != [] && Ascending(times) && ScheduleFits(l, rate, times)
    ensures AccruedAlong(l, rate, times).amountDue
            >= Accrued(l, rate, times[|times| - 1]) - (|times| - 1)
    ensures AccruedAlong(l, rate, times).amountDue * WadPow(|times|)
            <= IdealInterest(l, times[|times| - 1]) * Growth(rate, Stretches(l, rate, times))
  {
    var last, stretches := times[|times| - 1], Stretches(l, rate, times);
    var owed, ideal := WithInterest(l, last), IdealInterest(l, last);
    AccruedAlongBetween(l, rate, times);
    StretchesAddUp(l, rate, times);
    CompoundAtLeastSingle(owed, rate, stretches);
    CompoundAtMostGrowth(ideal, rate, stretches);
    FeeBounds(rate, LateSecs(l, last), owed, owed);
    MulMonoLeft(WadPow(|times|), AccruedAlong(l, rate, times).amountDue, Compound(ideal, rate, stretches));
  }
}
