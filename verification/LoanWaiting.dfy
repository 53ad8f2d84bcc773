/** Loans the contract opens on which waiting lowers what is owed: the balance shown is not monotone in time. */
module LoanWaiting {
  import opened LoanTypes
  import opened Accrual
  import opened AccrualLaws
  import opened LoanBook
  import opened LoanInvariant
  import opened LoanRuns
  import opened LoanDiscipline

  const BORROWER: Address := "borrower"

  /** Four calls on a new contract that end with a live loan on these terms. */
  function OpeningRun(principal: i128, tenorDays: u32, feeBps: u32, rate: i128): seq<Call> {
    [CallSetUserRisk(BORROWER, 1, true, 0, principal),
     CallSetLoanOffer(BORROWER, LoanOffer(tenorDays, feeBps, 1, principal)),
     CallSetPremiumConfig(BORROWER, PremiumConfig(0, rate)),
     CallOpenLoan(BORROWER, principal, tenorDays, feeBps)]
  }

  /** The contract once profile, offer and premium are written. */
  function Ready(principal: i128, tenorDays: u32, feeBps: u32, rate: i128): State {
    Initial(0).(risk := map[BORROWER := UserRisk(1, true, 0, 0, principal)],
                offers := map[BORROWER := LoanOffer(tenorDays, feeBps, 1, principal)],
                premiums := map[BORROWER := PremiumConfig(0, rate)])
  }

  lemma ReadyReached(principal: i128, tenorDays: u32, feeBps: u32, rate: i128)
    requires 0 < principal && 1 <= tenorDays && 1 <= feeBps && 0 <= rate
    ensures Initial(0).Ok() && Ready(principal, tenorDays, feeBps, rate).Ok()
    ensures Run(Initial(0), OpeningRun(principal, tenorDays, feeBps, rate)[..3])
            == Ready(principal, tenorDays, feeBps, rate)
  {
    var calls := OpeningRun(principal, tenorDays, feeBps, rate);
    InitialOk(0);
    var s1 := Step(Initial(0), calls[0]);
    assert s1 == Initial(0).(risk := map[BORROWER := UserRisk(1, true, 0, 0, principal)]);
    var s2 := Step(s1, calls[1]);
    assert s2 == s1.(offers := map[BORROWER := LoanOffer(tenorDays, feeBps, 1, principal)]);
    assert Step(s2, calls[2]) == Ready(principal, tenorDays, feeBps, rate);
    hide Step, State.Ok;
    RunThree(Initial(0), calls[0], calls[1], calls[2]);
    assert calls[..3] == [calls[0], calls[1], calls[2]];
  }

  lemma OpensFromReady(principal: i128, tenorDays: u32, feeBps: u32, rate: i128)
    requires 0 < principal && 1 <= tenorDays && 1 <= feeBps && 0 <= rate && !OpenTraps(0, principal, tenorDays, feeBps)
    requires Ready(principal, tenorDays, feeBps, rate).Ok()
    ensures var r := OpenLoan(Ready(principal, tenorDays, feeBps, rate), BORROWER, principal, tenorDays, feeBps);
            && r.Ok? && r.value.now == 0 && r.value.RateOf(BORROWER) == rate
            && r.value.LoanOf(BORROWER) == FreshLoan(0, SECONDS_PER_DAY, principal, tenorDays, feeBps)
  {
    hide State.Ok, OpenTraps, FreshLoan;
  }

  lemma OpeningReached(principal: i128, tenorDays: u32, feeBps: u32, rate: i128)
    requires 0 < principal && 1 <= tenorDays && 1 <= feeBps && 0 <= rate && !OpenTraps(0, principal, tenorDays, feeBps)
    ensures Initial(0).Ok()
    ensures var s := Run(Initial(0), OpeningRun(principal, tenorDays, feeBps, rate));
            && s.now == 0 && s.RateOf(BORROWER) == rate
            && s.LoanOf(BORROWER) == FreshLoan(0, SECONDS_PER_DAY, principal, tenorDays, feeBps)
  {
    ReadyReached(principal, tenorDays, feeBps, rate);
    OpensFromReady(principal, tenorDays, feeBps, rate);
    var calls := OpeningRun(principal, tenorDays, feeBps, rate);
    assert calls == calls[..3] + [calls[3]];
    hide State.Ok, Step, OpenTraps, FreshLoan, OpenLoan, Ready;
    RunThenOne(Initial(0), calls[..3], calls[3]);
    StepOpens(Ready(principal, tenorDays, feeBps, rate), BORROWER, principal, tenorDays, feeBps);
  }

  /** Letting time pass shows what accrual makes of the loan. */
  lemma PreviewAfter(s: State, a: Address, t: u64)
    requires s.Ok() && s.now <= t && LoanOk(s.LoanOf(a)) && s.LoanOf(a).active && 0 <= s.RateOf(a)
    requires FitsU64(s.LoanOf(a).LateStart()) && s.LoanOf(a).amountDue <= HALF_RANGE
    ensures Step(s, TimePasses(t)).Ok()
    ensures PreviewOwed(Step(s, TimePasses(t)), a) == Ok(Accrued(s.LoanOf(a), s.RateOf(a), t))
  {
    StepOk(s, TimePasses(t));
    TrapsExactly(s.LoanOf(a), s.RateOf(a), t);
  }

  /** What the preview says at `t` to the borrower of an opening run. */
  function PreviewAt(principal: i128, tenorDays: u32, feeBps: u32, rate: i128, t: u64): Outcome<i128> {
    InitialOk(0);
    PreviewOwed(Run(Initial(0), OpeningRun(principal, tenorDays, feeBps, rate) + [TimePasses(t)]), BORROWER)
  }

  lemma {:induction false} RunThenOne(s: State, calls: seq<Call>, c: Call)
    requires s.Ok()
    ensures Run(s, calls + [c]) == Step(Run(s, calls), c)
    decreases |calls|
  {
    hide State.Ok, Step;
    if calls == [] {
      assert [] + [c] == [c] && [c][1..] == [];
    } else {
      StepOk(s, calls[0]);
      assert (calls + [c])[1..] == calls[1..] + [c];
      RunThenOne(Step(s, calls[0]), calls[1..], c);
    }
  }

  lemma PreviewIsAccrued(principal: i128, tenorDays: u32, feeBps: u32, rate: i128, t: u64)
    requires 0 < principal && 1 <= tenorDays && 1 <= feeBps && 0 <= rate && !OpenTraps(0, principal, tenorDays, feeBps)
    requires var l := FreshLoan(0, SECONDS_PER_DAY, principal, tenorDays, feeBps);
             FitsU64(l.LateStart()) && l.amountDue <= HALF_RANGE
    ensures PreviewAt(principal, tenorDays, feeBps, rate, t)
            == Ok(Accrued(FreshLoan(0, SECONDS_PER_DAY, principal, tenorDays, feeBps), rate, t))
  {
    OpeningReached(principal, tenorDays, feeBps, rate);
    var calls := OpeningRun(principal, tenorDays, feeBps, rate);
    RunThenOne(Initial(0), calls, TimePasses(t));
    hide State.Ok, Step, OpeningRun, OpenTraps, FreshLoan, PreviewOwed, Accrued;
    PreviewAfter(Run(Initial(0), calls), BORROWER, t);
  }

  const BIG := 0x10_0000_0000_0000_0000_0000_0000   // 2^100
  const STEEP_RATE := 0x400_0000                    // 2^26

  const BIG_BALANCE := BIG + BIG / BPS_DENOM

  lemma SteepFee()
    ensures FloorFee(STEEP_RATE, 1, BIG_BALANCE) > 0 && !FeeFits(STEEP_RATE, 2, BIG_BALANCE)
  {
    assert STEEP_RATE * 1 * BIG_BALANCE == STEEP_RATE * BIG_BALANCE;
    assert STEEP_RATE * 2 * BIG_BALANCE == 2 * STEEP_RATE * BIG_BALANCE;
  }

  lemma BigOpening()
    ensures !OpenTraps(0, BIG, 1, 1)
    ensures var l := FreshLoan(0, SECONDS_PER_DAY, BIG, 1, 1);
            && l.lastAccrued == l.due == SECONDS_PER_DAY && l.LateStart() == 2 * SECONDS_PER_DAY
            && l.amountDue == BIG_BALANCE <= HALF_RANGE
  {
  }

  /** One more second of lateness wipes the whole late fee of a loan the contract opens. */
  lemma WaitingCanWipeTheFee()
    ensures var late := 2 * SECONDS_PER_DAY;
            var sooner, later := PreviewAt(BIG, 1, 1, STEEP_RATE, late + 1), PreviewAt(BIG, 1, 1, STEEP_RATE, late + 2);
            sooner.Ok? && later.Ok? && later.value < sooner.value
  {
    var late := 2 * SECONDS_PER_DAY;
    BigOpening();
    SteepFee();
    hide PreviewAt, FreshLoan, OpenTraps, FloorFee, FeeFits, LoanOk;
    var l := FreshLoan(0, SECONDS_PER_DAY, BIG, 1, 1);
    PreviewIsAccrued(BIG, 1, 1, STEEP_RATE, late + 1);
    PreviewIsAccrued(BIG, 1, 1, STEEP_RATE, late + 2);
    assert LateSecs(l, late + 1) == 1 && LateSecs(l, late + 2) == 2;
    assert PreDue(l, late + 1) == PreDue(l, late + 2) == 0;
    hide PreDue, Accrued, LateSecs;
    MonotoneExactly(l, STEEP_RATE, late + 1, late + 2);
  }

  const LARGE := 0x8_0000_0000_0000_0000_0000_0000   // 2^99

  /** With no late rate at all: interest shown a day and a half in is gone at the due date. */
  lemma WaitingCanWipeTheInterest()
    ensures var sooner := PreviewAt(LARGE, 30, 1024, 0, 129_600);
            var later := PreviewAt(LARGE, 30, 1024, 0, 30 * SECONDS_PER_DAY);
            sooner.Ok? && later.Ok? && later.value < sooner.value
  {
    var l := FreshLoan(0, SECONDS_PER_DAY, LARGE, 30, 1024);
    PreviewIsAccrued(LARGE, 30, 1024, 0, 129_600);
    PreviewIsAccrued(LARGE, 30, 1024, 0, l.due);
    hide PreviewAt;
    assert l.lastAccrued == SECONDS_PER_DAY && l.due == 30 * SECONDS_PER_DAY;
    assert InterestProduct(l, 129_600) <= I128_MAX < InterestProduct(l, l.due);
    assert PreDue(l, 129_600) > 0;
    FallsBeforeLateExactly(l, 0, 129_600, l.due);
  }
}
