/**
 * The repayment preflight recovers from a previewed balance the instant up to which late fees are charged, by
 * inverting the contract's floored fee.
 */
module Preflight {
  import opened Wrappers
  import opened LoanTypes
  import opened FixedPoint
  import opened Accrual
  import opened AccrualLaws

  datatype Skipped = LazySkip | PreGrace | RateZero

  /** What the service throws is `Unavailable`; `skipped` is absent when the accrual call was made. */
  datatype Payload =
    | Unavailable
    | Payload(lastAccruedTs: int, accruedAmountDue: int, accrueLateCalled: bool, skipped: Option<Skipped>)

  /** The seconds of lateness a preview implies: the floored fee, divided back. */
  function ImpliedSecs(rate: nat, amountDue: nat, delta: nat): (secs: nat)
    requires rate > 0 && amountDue > 0
  {
    MulMono(rate, 1, amountDue);
    DivBounds(delta * WAD, rate * amountDue);
    DivMono(0, delta * WAD, rate * amountDue);
    delta * WAD / (rate * amountDue)
  }

  /** The derived instant when no accrual call was made. */
  function DerivedTs(due: int, gracePeriod: nat, amountDue: nat, rate: nat, previewLate: Option<int>, now: int): int {
    var lateStart := due + gracePeriod;
    if rate == 0 || previewLate == None || amountDue == 0 || now <= lateStart then now
    else if previewLate.value <= amountDue then now
    else Max(now - ImpliedSecs(rate, amountDue, previewLate.value - amountDue), lateStart)
  }

  /**
   * The branches of the preflight. `premium` is absent when it could not be read; `accrued` is what the accrual call
   * leads to: absent when it throws, otherwise the balance read afterwards, itself absent when that read fails.
   */
  method PreflightRepayment(l: Loan, premium: Option<nat>, previewLate: Option<int>, now: int, force: bool,
                            accrued: Option<Option<nat>>)
    returns (payload: Payload)
    requires l.amountDue >= 0
    ensures force && l.due + l.gracePeriod < now && premium.Some? && 0 < premium.value ==>
              payload == match accrued
                         case None => Unavailable
                         case Some(read) => Payload(now, if read.Some? then read.value else l.amountDue, true, None)
    ensures !(force && l.due + l.gracePeriod < now && premium.Some? && 0 < premium.value) ==>
              && payload.Payload? && payload.accruedAmountDue == l.amountDue && !payload.accrueLateCalled
              && payload.skipped == Some(if !force then LazySkip
                                         else if now <= l.due + l.gracePeriod then PreGrace else RateZero)
              && payload.lastAccruedTs == DerivedTs(l.due, l.gracePeriod, l.amountDue,
                                                    if premium.Some? then premium.value else 0, previewLate, now)
  {
    var lateStart := l.due + l.gracePeriod;
    var isPastGrace := now > lateStart;
    var ratePerSecWad := if premium.Some? then premium.value else 0;
    var accrueLateCalled := false;
    var skipped: Option<Skipped> := None;
    if !force {
      skipped := Some(LazySkip);
    } else if !isPastGrace {
      skipped := Some(PreGrace);
    } else if ratePerSecWad == 0 {
      skipped := Some(RateZero);
    } else {
      if accrued == None {
        return Unavailable;
      }
      accrueLateCalled := true;
    }
    var accruedAmountDue: int := if accrueLateCalled && accrued.value.Some? then accrued.value.value else l.amountDue;
    var lastAccruedTs: int;
    if accrueLateCalled {
      lastAccruedTs := now;
    } else if ratePerSecWad == 0 || previewLate == None || accruedAmountDue == 0 || !isPastGrace {
      lastAccruedTs := now;
    } else {
      var delta := previewLate.value - accruedAmountDue;
      if delta <= 0 {
        lastAccruedTs := now;
      } else {
        var tLateImpliedSec := ImpliedSecs(ratePerSecWad, accruedAmountDue, delta);
        var derived := now - tLateImpliedSec;
        lastAccruedTs := Max(derived, lateStart);
      }
    }
    return Payload(lastAccruedTs, accruedAmountDue, accrueLateCalled, skipped);
  }

  /**
   * The derived instant, whole. Before the end of grace, without a rate, a balance or a preview that shows more than
   * it, that is now. Otherwise it lies between the end of grace and now, so far back that at this rate and balance the
   * difference is just earned: not a second further, and unless grace ended there not a second less.
   */
  lemma DerivedExactly(due: int, gracePeriod: nat, amountDue: nat, rate: nat, previewLate: Option<int>, now: int)
    ensures var ts := DerivedTs(due, gracePeriod, amountDue, rate, previewLate, now);
            if now <= due + gracePeriod || rate == 0 || amountDue == 0
               || previewLate == None || previewLate.value <= amountDue
            then ts == now
            else
              var shown := (previewLate.value - amountDue) * 1_000_000_000_000_000_000;
              && due + gracePeriod <= ts <= now
              && rate * amountDue * (now - ts) <= shown
              && (due + gracePeriod < ts ==> shown < rate * amountDue * (now - ts + 1))
  {
    var ts := DerivedTs(due, gracePeriod, amountDue, rate, previewLate, now);
    if due + gracePeriod < now && rate > 0 && amountDue > 0 && previewLate.Some? && amountDue < previewLate.value {
      var unit, delta := rate * amountDue, previewLate.value - amountDue;
      MulMono(rate, 1, amountDue);
      var secs := ImpliedSecs(rate, amountDue, delta);
      DivBounds(delta * WAD, unit);
      MulMono(unit, now - ts, secs);
      assert unit * (secs + 1) == unit * secs + unit;
    }
  }

  // ---------------------------------------------------------------- the inverse is sharp

  /** The instant late fees are charged from. */
  function Anchor(l: Loan): int { Max(l.lastAccrued, l.LateStart()) }

  /** Seconds in which the balance grows by one unit, rounded up. */
  function UnitSecs(rate: nat, amount: nat): (secs: nat)
    requires rate > 0 && amount > 0
  {
    MulMono(rate, 1, amount);
    DivMono(0, WAD + rate * amount - 1, rate * amount);
    (WAD + rate * amount - 1) / (rate * amount)
  }

  /** Dividing the floored fee back never overstates the time. */
  lemma NeverTooLong(rate: nat, secs: nat, amount: nat, delta: nat)
    requires rate > 0 && amount > 0 && delta <= ExactFee(rate, secs, amount)
    ensures ImpliedSecs(rate, amount, delta) <= secs
  {
    var unit, product := rate * amount, rate * secs * amount;
    MulMono(rate, 1, amount);
    assert product == unit * secs;
    DivBounds(product, WAD);
    MulMono(WAD, delta, product / WAD);
    DivMono(delta * WAD, unit * secs, unit);
    DivUnique(unit * secs, unit, secs, 0);
  }

  /** And understates it by less than it takes for the balance to grow by one unit. */
  lemma NotMuchTooShort(rate: nat, secs: nat, amount: nat, delta: nat)
    requires rate > 0 && amount > 0 && ExactFee(rate, secs, amount) <= delta
    ensures secs <= ImpliedSecs(rate, amount, delta) + UnitSecs(rate, amount)
  {
    var unit, product := rate * amount, rate * secs * amount;
    MulMono(rate, 1, amount);
    assert product == unit * secs;
    DivBounds(product, WAD);
    MulMono(WAD, product / WAD, delta);
    var implied, round := ImpliedSecs(rate, amount, delta), UnitSecs(rate, amount);
    DivBounds(delta * WAD, unit);
    DivBounds(WAD + unit - 1, unit);
    assert unit * secs < delta * WAD + WAD;
    assert delta * WAD < unit * implied + unit && WAD <= unit * round;
    assert delta * WAD <= unit * implied + unit - 1 && WAD + unit - 1 < unit * round + unit;
    assert unit * (implied + round + 1) == unit * implied + unit * round + unit;
    assert unit * secs < unit * (implied + round + 1);
    if implied + round + 1 <= secs {
      MulMono(unit, implied + round + 1, secs);
    }
  }

  /** The service's derivation on what the contract previews at `now`. */
  function Derived(l: Loan, rate: nat, now: int): int
    requires LoanOk(l) && l.active
  {
    DerivedTs(l.due, l.gracePeriod, l.amountDue, rate, Some(Accrued(l, rate, now)), now)
  }

  /** Past grace the derived instant is never before the true one, nor after `now`, whatever overflows or is pending. */
  lemma NeverBeforeAnchor(l: Loan, rate: nat, now: int)
    requires LoanOk(l) && l.active && rate > 0
    requires l.LateStart() < now && l.lastAccrued <= now
    ensures Anchor(l) <= Derived(l, rate, now) <= now
  {
    var secs := LateSecs(l, now);
    if l.due <= l.lastAccrued {
      assert PreDue(l, now) == 0;
      FeeBounds(rate, secs, l.amountDue, l.amountDue);
      var delta := Accrued(l, rate, now) - l.amountDue;
      if delta > 0 {
        NeverTooLong(rate, secs, l.amountDue, delta);
      }
    }
  }

  /**
   * When the contract's product fits it is after the true one by at most the seconds one unit of balance takes; this
   * needs no assumption that the interest before the due date was charged already.
   */
  lemma AfterAnchorByOneUnit(l: Loan, rate: nat, now: int)
    requires LoanOk(l) && l.active && rate > 0
    requires l.LateStart() < now && l.lastAccrued <= now
    requires FeeFits(rate, LateSecs(l, now), WithInterest(l, now))
    ensures Derived(l, rate, now) <= Anchor(l) + UnitSecs(rate, l.amountDue)
  {
    var secs, owed := LateSecs(l, now), WithInterest(l, now);
    FeeBounds(rate, secs, owed, owed);
    MulMono(rate * secs, l.amountDue, owed);
    DivMono(rate * secs * l.amountDue, rate * secs * owed, WAD);
    var delta := Accrued(l, rate, now) - l.amountDue;
    assert ExactFee(rate, secs, l.amountDue) <= delta;
    NotMuchTooShort(rate, secs, l.amountDue, delta);
    if delta == 0 {
      MulMono(rate, 1, l.amountDue);
      assert ImpliedSecs(rate, l.amountDue, 0) == 0 by { DivUnique(0, rate * l.amountDue, 0, 0); }
    }
  }

  /** With interest charged and the product too large the contract skips the fee, and the service sees none due. */
  lemma SkippedFeeReadsAsNow(l: Loan, rate: nat, now: int)
    requires LoanOk(l) && l.active && l.due <= l.lastAccrued
    requires !FeeFits(rate, LateSecs(l, now), l.amountDue)
    ensures Derived(l, rate, now) == now
  {
    assert WithInterest(l, now) == l.amountDue;
    assert LateFee(l, l.amountDue, rate, now) == 0;
  }
}
