/** What a run must have granted before a loan opens, and what it must have set for the hold after a payoff. */
module LoanGrants {
  import opened LoanTypes
  import opened Accrual
  import opened LoanBook
  import opened LoanInvariant
  import opened LoanRuns
  import opened LoanDiscipline

  // ---------------------------------------------------------------- credit is granted with KYC

  /** A call that writes the risk profile of `a`; a negative limit is refused. */
  predicate WritesRisk(c: Call, a: Address) { c.CallSetUserRisk? && c.a == a && 0 <= c.limit }

  /** The profile with a positive limit is the one that was written. */
  predicate Granted(u: UserRisk, c: Call) {
    c.CallSetUserRisk? && u.score == c.score && u.kycOk == c.kycOk && u.validUntil == c.validUntil && u.limit == c.limit
  }

  lemma StepRisk(s: State, c: Call, a: Address)
    requires s.Ok() && a in Step(s, c).risk && 0 < Step(s, c).risk[a].limit
    ensures if WritesRisk(c, a) then Granted(Step(s, c).risk[a], c) && Step(s, c).risk[a].lastUpdate == s.now
            else a in s.risk && Step(s, c).risk[a] == s.risk[a]
  {
    hide State.Ok, TryLoanCall;
    if LoanCall(c) && TryLoanCall(s, c).Ok? {
      LoanCallRisk(s, c, a);
    }
  }

  lemma LoanCallRisk(s: State, c: Call, a: Address)
    requires s.Ok() && LoanCall(c) && TryLoanCall(s, c).Ok?
    requires a in TryLoanCall(s, c).value.risk && 0 < TryLoanCall(s, c).value.risk[a].limit
    ensures a in s.risk && TryLoanCall(s, c).value.risk[a] == s.risk[a]
  {
    hide State.Ok, MaterializedAt, AccrueLoan, OpenTraps, FreshLoan;
  }

  /** A positive limit was there from the start, or is that of the last call that wrote the profile. */
  lemma {:induction false} FindGrant(s: State, calls: seq<Call>, a: Address) returns (found: bool, i: nat)
    requires s.Ok() && a in Run(s, calls).risk && 0 < Run(s, calls).risk[a].limit
    ensures found ==>
              && i < |calls| && WritesRisk(calls[i], a) && Granted(Run(s, calls).risk[a], calls[i])
              && forall j :: i < j < |calls| ==> !WritesRisk(calls[j], a)
    ensures !found ==>
              a in s.risk && s.risk[a] == Run(s, calls).risk[a] && forall c <- calls :: !WritesRisk(c, a)
    decreases |calls|
  {
    hide State.Ok, Step;
    if calls == [] {
      found, i := false, 0;
    } else {
      StepOk(s, calls[0]);
      found, i := FindGrant(Step(s, calls[0]), calls[1..], a);
      if found {
        i := i + 1;
        assert forall j :: i < j < |calls| ==> calls[j] == calls[1..][j - 1];
      } else {
        StepRisk(s, calls[0], a);
        assert forall j :: 0 < j < |calls| ==> calls[j] == calls[1..][j - 1];
        found, i := WritesRisk(calls[0], a), 0;
      }
    }
  }

  /**
   * Every loan ever opened was granted: in the run before it there is a last call that wrote this borrower's risk
   * profile, and that call confirmed KYC, gave at least the principal as limit, and has not expired.
   */
  lemma EveryLoanWasGranted(now: u64, calls: seq<Call>, open: Call, a: Address) returns (i: nat)
    requires Initial(now).Ok() && OpensLoan(Run(Initial(now), calls), open, a)
    ensures i < |calls| && calls[i].CallSetUserRisk? && calls[i].a == a
    ensures calls[i].kycOk && 0 < open.principal <= calls[i].limit
    ensures calls[i].validUntil == 0 || Run(Initial(now), calls).now <= calls[i].validUntil
    ensures forall j :: i < j < |calls| && calls[j].CallSetUserRisk? && calls[j].a == a ==> calls[j].limit < 0
  {
    hide State.Ok, OpensLoan, Run;
    OpenInBounds(Run(Initial(now), calls), open, a);
    var found;
    found, i := FindGrant(Initial(now), calls, a);
    assert forall j :: i < j < |calls| ==> !WritesRisk(calls[j], a);
  }

  // ---------------------------------------------------------------- the hold is the one that was set

  predicate SetsHold(c: Call, tenorDays: u32) { c.CallSetMinHold? && c.tenorDays == tenorDays }

  lemma StepHold(s: State, c: Call, tenorDays: u32)
    requires s.Ok() && !SetsHold(c, tenorDays)
    ensures tenorDays in Step(s, c).minHold <==> tenorDays in s.minHold
    ensures tenorDays in s.minHold ==> Step(s, c).minHold[tenorDays] == s.minHold[tenorDays]
  {
    hide State.Ok, TryLoanCall;
  }

  lemma {:induction false} RunHold(s: State, calls: seq<Call>, tenorDays: u32)
    requires s.Ok() && forall c <- calls :: !SetsHold(c, tenorDays)
    ensures tenorDays in Run(s, calls).minHold <==> tenorDays in s.minHold
    ensures tenorDays in s.minHold ==> Run(s, calls).minHold[tenorDays] == s.minHold[tenorDays]
    decreases |calls|
  {
    hide State.Ok, Step;
    if calls != [] {
      StepOk(s, calls[0]);
      StepHold(s, calls[0], tenorDays);
      RunHold(Step(s, calls[0]), calls[1..], tenorDays);
    }
  }

  /**
   * After an operator set the hold of a tenor, and until it is set again, paying off a loan of that tenor makes its
   * borrower wait for that many days from the loan's start, and for nothing more than the payoff if they are over.
   */
  lemma HoldAsSet(s: State, tenorDays: u32, days: u32, calls: seq<Call>, close: Call, a: Address)
    requires s.Ok() && forall c <- calls :: !(c.CallSetMinHold? && c.tenorDays == tenorDays)
    requires var t := Run(s, [CallSetMinHold(tenorDays, days)] + calls);
             Closes(t, close, a) && t.LoanOf(a).tenorDays == tenorDays
    ensures var t := Run(s, [CallSetMinHold(tenorDays, days)] + calls);
            var end := t.LoanOf(a).start + days * 86_400;
            Step(t, close).NextBorrowOf(a) == if t.now < end then end else t.now
  {
    hide State.Ok, Step, AccruedLoan, Closes;
    var set_hold := CallSetMinHold(tenorDays, days);
    StepOk(s, set_hold);
    var u := Step(s, set_hold);
    SettingHold(s, tenorDays, days);
    assert ([set_hold] + calls)[1..] == calls;
    RunHold(u, calls, tenorDays);
    CloseEffect(Run(u, calls), close, a);
  }

  lemma SettingHold(s: State, tenorDays: u32, days: u32)
    requires s.Ok()
    ensures var u := Step(s, CallSetMinHold(tenorDays, days));
            tenorDays in u.minHold && u.minHold[tenorDays] == days * 86_400
  {
    hide State.Ok, TryLoanCall;
  }

  /** And while nobody sets it: four days for loans of 3 and 7 days, a week for 14, 21 and 30, none for others. */
  lemma HoldAsConstructed(now: u64, calls: seq<Call>, close: Call, a: Address)
    requires Initial(now).Ok()
    requires var t := Run(Initial(now), calls);
             Closes(t, close, a) && forall c <- calls :: c.CallSetMinHold? ==> c.tenorDays != t.LoanOf(a).tenorDays
    ensures var t := Run(Initial(now), calls);
            var l := t.LoanOf(a);
            var hold := if l.tenorDays in {3, 7} then 345_600 else if l.tenorDays in {14, 21, 30} then 604_800 else 0;
            Step(t, close).NextBorrowOf(a) == if t.now < l.start + hold then l.start + hold else t.now
  {
    hide State.Ok, Step, Run;
    var t := Run(Initial(now), calls);
    RunHold(Initial(now), calls, t.LoanOf(a).tenorDays);
    CloseEffect(t, close, a);
  }
}
