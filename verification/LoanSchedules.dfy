/** Schedules of late charges as they come about: runs in which anybody calls `accrue_late` at any time. */
module LoanSchedules {
  import opened LoanTypes
  import opened Accrual
  import opened AccrualLaws
  import opened LoanBook
  import opened LoanInvariant
  import opened LoanRuns
  import opened LoanConservation
  import opened LoanInterest

  /** Calls that neither pay the loan of `a` nor change its late rate, which would apply to the past. */
  predicate Undisturbed(c: Call, a: Address) {
    !Pays(c, a) && !(c.CallSetPremiumConfig? && c.a == a)
  }

  /** When in a run the loan of `a` was charged. */
  function ChargeTimes(s: State, calls: seq<Call>, a: Address): seq<u64>
    requires s.Ok()
    decreases |calls|
  {
    if calls == [] then []
    else
      StepOk(s, calls[0]);
      (if calls[0] == CallAccrueLate(a) then [s.now] else []) + ChargeTimes(Step(s, calls[0]), calls[1..], a)
  }

  // ---------------------------------------------------------------- a default does not change what is owed

  lemma DefaultAsideOnce(l: Loan, m: Loan, rate: nat, t: u64)
    requires LoanOk(l) && l.active && m == l.(defaulted := m.defaulted)
    ensures LoanOk(m) && LateSecs(m, t) == LateSecs(l, t) && WithInterest(m, t) == WithInterest(l, t)
    ensures MaterializedAt(m, rate, t).Ok? <==> MaterializedAt(l, rate, t).Ok?
    ensures MaterializedAt(l, rate, t).Ok? ==>
              MaterializedAt(m, rate, t).value == MaterializedAt(l, rate, t).value.(defaulted := m.defaulted)
  {
    SameCum(l, l, t);
    assert Elapsed(m, t) == Elapsed(l, t) && Elapsed(m, l.lastAccrued) == Elapsed(l, l.lastAccrued);
    assert PreDue(m, t) == PreDue(l, t);
  }

  lemma {:induction false} DefaultAside(l: Loan, m: Loan, rate: nat, times: seq<u64>)
    requires LoanOk(l) && l.active && LoanOk(m) && m == l.(defaulted := m.defaulted)
    ensures ScheduleFits(m, rate, times) <==> ScheduleFits(l, rate, times)
    ensures ScheduleFits(l, rate, times) ==>
              AccruedAlong(m, rate, times) == AccruedAlong(l, rate, times).(defaulted := m.defaulted)
    decreases |times|
  {
    if times != [] {
      DefaultAsideOnce(l, m, rate, times[0]);
      if MaterializedAt(l, rate, times[0]).Ok? {
        DefaultAside(MaterializedAt(l, rate, times[0]).value, MaterializedAt(m, rate, times[0]).value,
                     rate, times[1..]);
      }
    }
  }

  // ---------------------------------------------------------------- runs are schedules

  lemma {:induction false} ChargeTimesAscend(s: State, calls: seq<Call>, a: Address)
    requires s.Ok()
    ensures Ascending(ChargeTimes(s, calls, a))
    ensures forall t <- ChargeTimes(s, calls, a) :: s.now <= t <= Run(s, calls).now
    decreases |calls|
  {
    hide State.Ok, Step;
    if calls != [] {
      StepOk(s, calls[0]);
      StepNow(s, calls[0]);
      ChargeTimesAscend(Step(s, calls[0]), calls[1..], a);
      RunNow(Step(s, calls[0]), calls[1..]);
      var more := ChargeTimes(Step(s, calls[0]), calls[1..], a);
      AscendingCons(s.now, more);
      assert [] + more == more;
    }
  }

  lemma AscendingCons(t: u64, more: seq<u64>)
    requires Ascending(more) && forall x <- more :: t <= x
    ensures Ascending([t] + more)
  {
    var all := [t] + more;
    forall i, j | 0 <= i < j < |all| ensures all[i] <= all[j] {
      assert all[j] == more[j - 1] && more[j - 1] in more;
      if i > 0 { assert all[i] == more[i - 1]; }
    }
  }

  /** A call that is no charge leaves balance and anchor alone. */
  lemma QuietStep(s: State, c: Call, a: Address)
    requires s.Ok() && s.LoanOf(a).active && Undisturbed(c, a) && c != CallAccrueLate(a)
    ensures Step(s, c).LoanOf(a) == s.LoanOf(a).(defaulted := Step(s, c).LoanOf(a).defaulted)
  {
    hide State.Ok, OpenLoan, MarkDefault;
    if !Touches(c, a) {
      UntouchedLoan(s, c, a);
    } else if TryLoanCall(s, c).Ok? {
      match c
      case CallOpenLoan(_, principal, tenorDays, feeBps) => OpenNeedsNoLoan(s, a, principal, tenorDays, feeBps);
      case CallMarkDefault(_) => DefaultBalances(s, a);
    }
  }

  lemma ChargeStep(s: State, a: Address)
    requires s.Ok() && s.LoanOf(a).active && Materialized(s, a).Ok?
    ensures Step(s, CallAccrueLate(a)).LoanOf(a) == Materialized(s, a).value
  {
    hide State.Ok;
  }

  lemma RateStays(s: State, c: Call, a: Address)
    requires s.Ok() && Undisturbed(c, a)
    ensures Step(s, c).RateOf(a) == s.RateOf(a)
  {
    hide State.Ok, TryLoanCall;
  }

  /** Over any run without payments and rate changes the loan is what charging along its charge times makes of it. */
  lemma {:induction false} RunIsSchedule(s: State, calls: seq<Call>, a: Address)
    requires s.Ok() && LoanOk(s.LoanOf(a)) && s.LoanOf(a).active && 0 <= s.RateOf(a)
    requires forall c <- calls :: Undisturbed(c, a)
    requires ScheduleFits(s.LoanOf(a), s.RateOf(a), ChargeTimes(s, calls, a))
    ensures var end := Run(s, calls).LoanOf(a);
            end == AccruedAlong(s.LoanOf(a), s.RateOf(a), ChargeTimes(s, calls, a)).(defaulted := end.defaulted)
    decreases |calls|
  {
    hide State.Ok, Step, Undisturbed, MaterializedAt;
    if calls != [] {
      var l, t := s.LoanOf(a), Step(s, calls[0]);
      StepOk(s, calls[0]);
      LoanOfOk(t, a);
      RateStays(s, calls[0], a);
      var times, more := ChargeTimes(s, calls, a), ChargeTimes(t, calls[1..], a);
      if calls[0] == CallAccrueLate(a) {
        assert times[1..] == more && times[0] == s.now;
        ChargeStep(s, a);
      } else {
        assert times == more;
        QuietStep(s, calls[0], a);
        DefaultAside(l, t.LoanOf(a), s.RateOf(a), more);
      }
      RunIsSchedule(t, calls[1..], a);
    }
  }

  /**
   * Whoever charges an overdue loan however often: the balance is within n - 1 units below a single charge at the last
   * of its n charges, and never above the exact compound growth of the balance with all interest in.
   */
  lemma ChargedRunBounds(s: State, calls: seq<Call>, a: Address)
    requires s.Ok() && LoanOk(s.LoanOf(a)) && s.LoanOf(a).active && 0 <= s.RateOf(a)
    requires forall c <- calls :: Undisturbed(c, a)
    requires ChargeTimes(s, calls, a) != [] && ScheduleFits(s.LoanOf(a), s.RateOf(a), ChargeTimes(s, calls, a))
    ensures var l, rate, times, end := s.LoanOf(a), s.RateOf(a), ChargeTimes(s, calls, a), Run(s, calls).LoanOf(a);
            && end.amountDue >= Accrued(l, rate, times[|times| - 1]) - (|times| - 1)
            && end.amountDue * WadPow(|times|)
               <= IdealInterest(l, times[|times| - 1]) * Growth(rate, Stretches(l, rate, times))
  {
    hide State.Ok;
    ChargeTimesAscend(s, calls, a);
    RunIsSchedule(s, calls, a);
    LateScheduleBounds(s.LoanOf(a), s.RateOf(a), ChargeTimes(s, calls, a));
    hide Accrued, IdealInterest, AccruedAlong;
  }
}
