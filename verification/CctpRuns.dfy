/**
 * Whole runs of poll, deliver, crashes and other relayers: what the persisted row keeps, and how many vault deposits
 * a delivered row stands for.
 */
module CctpRuns {
  import opened CctpTransfer
  import opened CctpExecutor
  import B = CctpBytes
  import M = CctpMessage
  import F = CctpForwarder

  predicate SameContent(t: Transfer, u: Transfer) {
    t.id == u.id && t.message == u.message && t.attestation == u.attestation
  }

  /** The row's message is a sound burn for our relayer, to be credited to somebody else through the vault. */
  predicate VaultRow(deps: Deps, t: Transfer) {
    && Truthy(t.message) && Truthy(t.attestation)
    && PlanFor(deps, t).Ok?
    && PlanFor(deps, t).value.nonce == t.id.nonce
    && !Direct(PlanFor(deps, t).value, t)
    && PlanFor(deps, t).value.forwardRecipient == deps.relayer
  }

  function VaultDeposit(deps: Deps, t: Transfer): Deposit
    requires VaultRow(deps, t)
  {
    DepositOf(deps, t, PlanFor(deps, t).value)
  }

  lemma SameContentSameVault(deps: Deps, t: Transfer, u: Transfer)
    requires SameContent(t, u)
    ensures VaultRow(deps, t) <==> VaultRow(deps, u)
    ensures VaultRow(deps, t) ==> VaultDeposit(deps, t) == VaultDeposit(deps, u)
  {
    hide F.PlanOf;
  }

  lemma BeginVault(deps: Deps, t: Transfer)
    requires t.state == Attested
    ensures VaultRow(deps, t) <==> Begin(deps, t).Planned? && !Direct(Begin(deps, t).plan, t)
    ensures Begin(deps, t).Planned? ==> PlanFor(deps, t) == B.Ok(Begin(deps, t).plan)
    ensures Begin(deps, t).Finished? ==>
              var next := Begin(deps, t).next;
              next.state == Failed && SameContent(next, t) && next.depositTxHash == t.depositTxHash
              && !Begin(deps, t).polled && !Begin(deps, t).deposited
  {
    hide F.PlanOf;
  }

  /** Every deposit is for the row's beneficiary, from our relayer, of exactly ten times the burnt amount. */
  lemma DepositIsTenfold(deps: Deps, t: Transfer)
    requires VaultRow(deps, t)
    ensures M.MessageOf(t.message.value).Ok?
    ensures VaultDeposit(deps, t)
            == Deposit(deps.relayer, t.id.beneficiary, 10 * M.MessageOf(t.message.value).value.body.amount)
    ensures M.MessageOf(t.message.value).value.header.nonce == t.id.nonce
  {
    hide F.PlanOf, M.MessageOf;
    F.PlansAreSafe(t.message.value, t.attestation.value, deps.config, deps.isAddress);
  }

  // ---------------------------------------------------------------- the invariant

  function Count(b: bool): nat { if b then 1 else 0 }

  predicate DepositLanded(work: Work) { work.Finished? && work.deposited }

  ghost predicate RowOk(deps: Deps, w: World) {
    && w.row.state != Submitting
    && (w.row.state == Delivered ==> w.row.id.nonce in w.used)
    && (Truthy(w.row.depositTxHash) ==> w.row.state == Delivered && !w.byPoll)
    && (w.byPoll ==> w.row.state == Delivered)
    && (w.row.state == Delivered && !w.byPoll && VaultRow(deps, w.row) ==> Truthy(w.row.depositTxHash))
  }

  ghost predicate DepositsOk(deps: Deps, w: World) {
    && |w.deposits| == w.lost + Count(DepositLanded(w.work)) + Count(Truthy(w.row.depositTxHash))
    && (w.deposits != [] ==>
          && w.row.state in {Attested, Delivered} && w.row.id.nonce in w.used && VaultRow(deps, w.row)
          && forall d <- w.deposits :: d == VaultDeposit(deps, w.row))
  }

  /** What finished but unpersisted work may hold. */
  ghost predicate NextOk(deps: Deps, row: Transfer, next: Transfer, polled: bool, deposited: bool) {
    && next.id == row.id && next.state != Submitting && Reaches(row.state, next.state)
    && (Truthy(row.attestation) ==> Truthy(next.attestation))
    && (row.state == Delivered ==> next == row)
    && (VaultRow(deps, row) && row.state == Attested ==> next.state in {Attested, Delivered})
    && ((VaultRow(deps, row) && row.state == Attested) || !polled ==> SameContent(next, row))
    && if deposited then
        && !polled && row.state == Attested && VaultRow(deps, row)
        && next.state == Delivered && Truthy(next.depositTxHash)
       else
         && next.depositTxHash == row.depositTxHash
         && (!polled && VaultRow(deps, row) && row.state != Delivered ==> next.state != Delivered)
  }

  ghost predicate WorkOk(deps: Deps, w: World) {
    && WorkFits(deps, w.row, w.work)
    && (w.work.Crediting? || w.work.Depositing? ==> w.row.id.nonce in w.used)
    && (w.work.Finished? ==>
          && NextOk(deps, w.row, w.work.next, w.work.polled, w.work.deposited)
          && (w.work.next.state == Delivered ==> w.row.id.nonce in w.used))
  }

  ghost predicate Inv(deps: Deps, w: World) { RowOk(deps, w) && DepositsOk(deps, w) && WorkOk(deps, w) }

  lemma InitialInv(deps: Deps, w: World)
    requires Initial(w)
    ensures Inv(deps, w)
  {
    hide VaultRow;
  }

  // ---------------------------------------------------------------- every step keeps it

  lemma LegalOnce(from: State, to: State)
    requires to in LegalTransitions(from)
    ensures Reaches(from, to)
  {
    ReachesSelf(from);
    ReachesFurther(from, from, to);
  }

  lemma StartKeeps(deps: Deps, w: World)
    requires Inv(deps, w) && w.work == Idle
    ensures Inv(deps, Step(deps, w, Start))
  {
    hide VaultRow, PlanFor, Reaches;
    if w.row.state == Attested {
      BeginVault(deps, w.row);
      LegalOnce(Attested, Failed);
    }
  }

  lemma CheckKeeps(deps: Deps, w: World)
    requires Inv(deps, w) && w.work.Planned?
    ensures Inv(deps, Step(deps, w, CheckNonce))
  {
    hide VaultRow, PlanFor, Reaches, Begin, Reconcile;
    BeginPlans(deps, w.row);
    BeginVault(deps, w.row);
    BeginTruthy(deps, w.row);
    SettledLaws(w.row);
  }

  lemma BeginTruthy(deps: Deps, t: Transfer)
    requires Begin(deps, t).Planned?
    ensures Truthy(t.attestation) && Truthy(t.message)
  {
    hide PlanFor;
  }

  /** The shortcut delivers and changes nothing else. */
  lemma SettledLaws(t: Transfer)
    requires t.state == Attested && Truthy(t.attestation)
    ensures Settled(t).state == Delivered && SameContent(Settled(t), t) && Settled(t).depositTxHash == t.depositTxHash
    ensures Reaches(Attested, Delivered)
  {
    ReconcilePath(Attested);
  }

  lemma MintKeeps(deps: Deps, w: World, fate: Fate)
    requires Inv(deps, w) && w.work.Minting?
    ensures Inv(deps, SubmitMint(deps, w, fate))
  {
    hide VaultRow, PlanFor, Reaches, Begin;
    BeginPlans(deps, w.row);
    BeginVault(deps, w.row);
    ReconcilePath(Attested);
  }

  lemma DepositKeeps(deps: Deps, w: World, fate: Fate)
    requires Inv(deps, w) && (w.work.Crediting? || w.work.Depositing?) && EventOk(Submit(fate))
    ensures Inv(deps, SubmitDeposit(deps, w, fate, w.work.plan, Heard(deps, w.row, w.work, fate)))
  {
    hide VaultRow, PlanFor, Reaches, Begin, Reconcile;
    BeginPlans(deps, w.row);
    BeginVault(deps, w.row);
    BeginTruthy(deps, w.row);
    if fate.Confirmed? && w.work.Crediting? {
      SettledLaws(Move(w.row, Attested, DepositPatch(fate.txHash)));
    }
    ReconcilePath(Attested);
  }

  lemma PollKeeps(deps: Deps, w: World, e: Event)
    requires Inv(deps, w) && e.Poll? && w.work == Idle
    ensures Inv(deps, Step(deps, w, e))
  {
    hide PlanFor, Reaches, Begin, Reconcile, IrisStatusFromHttp, IsSentinel;
    var iris := IrisStatusFromHttp(e.httpStatus, e.body, e.retryAfterSeconds);
    var used := w.row.id.nonce in w.used;
    IrisMeaning(e.httpStatus, e.body, e.retryAfterSeconds);
    ReconcileNeverIllegal(w.row, iris, used);
    AttestationKept(w.row, iris, used);
    if w.row.state == Attested && Truthy(w.row.attestation) {
      AttestedContentKept(w.row, iris, used);
    }
    NoNewSubmitting(w.row, iris, used);
  }

  lemma AttestedContentKept(t: Transfer, iris: IrisStatus, used: bool)
    requires t.state == Attested && Truthy(t.attestation)
    ensures SameContent(Reconcile(t, iris, used).transfer, t)
    ensures Reconcile(t, iris, used).transfer.state in {Attested, Delivered}
  {
  }

  lemma NoNewSubmitting(t: Transfer, iris: IrisStatus, used: bool)
    requires t.state != Submitting
    ensures Reconcile(t, iris, used).transfer.state != Submitting
  {
  }

  lemma PersistKeeps(deps: Deps, w: World)
    requires Inv(deps, w) && w.work.Finished?
    ensures Inv(deps, Step(deps, w, Persist))
  {
    hide VaultRow, PlanFor, Reaches, VaultDeposit;
    var next := w.work.next;
    if SameContent(next, w.row) {
      SameContentSameVault(deps, next, w.row);
    }
  }

  lemma QuietKeeps(deps: Deps, w: World, e: Event)
    requires Inv(deps, w) && (e.Crash? || e.OtherRelayer?)
    ensures Inv(deps, Step(deps, w, e))
  {
    hide VaultRow, PlanFor, Reaches, Begin;
  }

  lemma StepKeeps(deps: Deps, w: World, e: Event)
    requires Inv(deps, w) && EventOk(e)
    ensures Inv(deps, Step(deps, w, e))
  {
    match e
    case Start => if w.work == Idle { StartKeeps(deps, w); }
    case CheckNonce => if w.work.Planned? { CheckKeeps(deps, w); }
    case Submit(fate) =>
      if w.work.Minting? {
        MintKeeps(deps, w, fate);
      } else if w.work.Crediting? || w.work.Depositing? {
        DepositKeeps(deps, w, fate);
      }
    case Persist => if w.work.Finished? { PersistKeeps(deps, w); }
    case Poll(_, _, _) => if w.work == Idle { PollKeeps(deps, w, e); }
    case Crash => QuietKeeps(deps, w, e);
    case OtherRelayer(_) => QuietKeeps(deps, w, e);
  }

  lemma {:induction false} RunKeeps(deps: Deps, w: World, events: seq<Event>)
    requires Inv(deps, w) && EventsOk(events)
    ensures Inv(deps, Run(deps, w, events))
  {
    hide RowOk, DepositsOk, Step, EventOk, Begin;
    if events != [] {
      RunKeeps(deps, w, events[..|events| - 1]);
      StepKeeps(deps, Run(deps, w, events[..|events| - 1]), events[|events| - 1]);
    }
  }

  // ---------------------------------------------------------------- what the persisted row keeps

  /** How the row may look later: same identity, a legal path of states, nothing lost that was attested. */
  ghost predicate RowMoves(t: Transfer, u: Transfer) {
    && u.id == t.id && Reaches(t.state, u.state)
    && (Truthy(t.attestation) ==> Truthy(u.attestation))
    && (t.state == Delivered ==> u == t)
  }

  lemma StepMovesRow(deps: Deps, w: World, e: Event)
    requires Inv(deps, w)
    ensures RowMoves(w.row, Step(deps, w, e).row)
  {
    hide PlanFor, Reaches, Begin, Reconcile, VaultRow;
    ReachesSelf(w.row.state);
  }

  lemma ReachesTransitive(a: State, b: State, c: State)
    requires Reaches(a, b) && Reaches(b, c)
    ensures Reaches(a, c)
  {
    var p :| LegalPath(p) && p[0] == a && p[|p| - 1] == b;
    var q :| LegalPath(q) && q[0] == b && q[|q| - 1] == c;
    var r := p + q[1..];
    forall i | 0 <= i < |r| - 1 ensures r[i + 1] in LegalTransitions(r[i]) {
      if i + 1 < |p| {
        assert p[i + 1] in LegalTransitions(p[i]);
      } else {
        var j := i + 1 - |p|;
        assert r[i] == q[j] && r[i + 1] == q[j + 1];
      }
    }
    assert LegalPath(r);
    assert r[|r| - 1] == c;
  }

  /**
   * Over every run: the identity never changes, states move along legal edges only, delivered is absorbing and a
   * stored attestation never disappears.
   */
  lemma {:induction false} RowNeverRegresses(deps: Deps, w: World, events: seq<Event>)
    requires Inv(deps, w) && EventsOk(events)
    ensures RowMoves(w.row, Run(deps, w, events).row)
  {
    hide RowOk, DepositsOk, Step, EventOk, Begin, Reaches;
    ReachesSelf(w.row.state);
    if events != [] {
      var before := Run(deps, w, events[..|events| - 1]);
      RowNeverRegresses(deps, w, events[..|events| - 1]);
      RunKeeps(deps, w, events[..|events| - 1]);
      StepMovesRow(deps, before, events[|events| - 1]);
      ReachesTransitive(w.row.state, before.row.state, Step(deps, before, events[|events| - 1]).row.state);
    }
  }

  /** A run may be cut anywhere: what holds of whole runs holds between any two of its points. */
  lemma {:induction false} RunSplits(deps: Deps, w: World, first: seq<Event>, second: seq<Event>)
    requires WorkFits(deps, w.row, w.work)
    ensures Run(deps, w, first + second) == Run(deps, Run(deps, w, first), second)
    decreases |second|
  {
    hide Step, WorkFits;
    var all := first + second;
    if second == [] {
      assert all == first;
    } else {
      var n := |second| - 1;
      assert all[..|all| - 1] == first + second[..n];
      RunSplits(deps, w, first, second[..n]);
    }
  }

  /** So between any two points of a run, not only from its start. */
  lemma RowNeverRegressesBetween(deps: Deps, w: World, first: seq<Event>, second: seq<Event>)
    requires Inv(deps, w) && EventsOk(first) && EventsOk(second)
    ensures RowMoves(Run(deps, w, first).row, Run(deps, w, first + second).row)
  {
    hide RowOk, DepositsOk, Step, EventOk, Begin, RowMoves;
    RunKeeps(deps, w, first);
    RunSplits(deps, w, first, second);
    RowNeverRegresses(deps, Run(deps, w, first), second);
  }

  /** A delivered row means that the nonce is consumed on chain. */
  lemma DeliveredMeansConsumed(deps: Deps, w: World, events: seq<Event>)
    requires Initial(w) && EventsOk(events)
    ensures var n := Run(deps, w, events);
            n.row.state == Delivered ==> n.row.id.nonce in n.used
  {
    InitialInv(deps, w);
    RunKeeps(deps, w, events);
  }

  // ---------------------------------------------------------------- how many deposits a delivered row stands for

  /** At no point have more deposits landed than were lost to interruptions plus one. */
  lemma AtMostOneBesidesLost(deps: Deps, w: World, events: seq<Event>)
    requires Initial(w) && EventsOk(events)
    ensures var n := Run(deps, w, events);
            && n.lost <= |n.deposits| <= n.lost + 1
            && forall d <- n.deposits :: VaultRow(deps, n.row) && d == VaultDeposit(deps, n.row)
  {
    hide VaultRow, PlanFor, Begin, Run, Step;
    InitialInv(deps, w);
    RunKeeps(deps, w, events);
  }

  /**
   * Vault mode: once the row is delivered and no worker holds anything, the deposits are those lost to interruptions
   * plus one recorded deposit, exactly when it was `deliver` that delivered it. A poll that finds the nonce consumed
   * delivers without any deposit.
   */
  lemma DepositGuaranteeExactly(deps: Deps, w: World, events: seq<Event>)
    requires Initial(w) && EventsOk(events)
    ensures var n := Run(deps, w, events);
            n.row.state == Delivered && VaultRow(deps, n.row) && !DepositLanded(n.work) ==>
              && (|n.deposits| == n.lost + 1 <==> !n.byPoll)
              && (Truthy(n.row.depositTxHash) <==> !n.byPoll)
              && (|n.deposits| == n.lost <==> n.byPoll)
  {
    hide VaultRow, PlanFor, Begin, Run, Step;
    InitialInv(deps, w);
    RunKeeps(deps, w, events);
  }

  predicate NoPolls(events: seq<Event>) { forall e <- events :: !e.Poll? }

  lemma {:induction false} WithoutPolls(deps: Deps, w: World, events: seq<Event>)
    requires Initial(w) && NoPolls(events)
    ensures var n := Run(deps, w, events);
            !n.byPoll && (n.work.Finished? ==> !n.work.polled)
  {
    hide VaultRow, PlanFor, Step, Begin;
    if events != [] {
      WithoutPolls(deps, w, events[..|events| - 1]);
      StepWithoutPoll(deps, Run(deps, w, events[..|events| - 1]), events[|events| - 1]);
    }
  }

  lemma StepWithoutPoll(deps: Deps, w: World, e: Event)
    requires WorkFits(deps, w.row, w.work) && !e.Poll? && !w.byPoll && (w.work.Finished? ==> !w.work.polled)
    ensures var n := Step(deps, w, e);
            !n.byPoll && (n.work.Finished? ==> !n.work.polled)
  {
    hide PlanFor, Reconcile;
  }

  /** Runs of `deliver` alone, crashing and restarting at will: one recorded deposit, tenfold, for the beneficiary. */
  lemma DeliverDepositsOnce(deps: Deps, w: World, events: seq<Event>)
    requires Initial(w) && EventsOk(events) && NoPolls(events) && VaultRow(deps, w.row)
    ensures var n := Run(deps, w, events);
            && n.row.id == w.row.id
            && (n.row.state == Delivered && n.work == Idle ==>
                  Truthy(n.row.depositTxHash) && |n.deposits| == n.lost + 1)
            && (n.row.state != Delivered && n.work == Idle ==> |n.deposits| == n.lost)
            && M.MessageOf(w.row.message.value).Ok?
            && forall d <- n.deposits ::
                 d == Deposit(deps.relayer, w.row.id.beneficiary,
                              10 * M.MessageOf(w.row.message.value).value.body.amount)
  {
    hide VaultRow, PlanFor, Begin, Run, Step, Reaches, M.MessageOf;
    InitialInv(deps, w);
    RunKeeps(deps, w, events);
    WithoutPolls(deps, w, events);
    RowNeverRegresses(deps, w, events);
    ContentWithoutPolls(deps, w, events);
    SameContentSameVault(deps, w.row, Run(deps, w, events).row);
    DepositIsTenfold(deps, w.row);
  }

  lemma {:induction false} ContentWithoutPolls(deps: Deps, w: World, events: seq<Event>)
    requires Initial(w) && EventsOk(events) && NoPolls(events)
    ensures SameContent(Run(deps, w, events).row, w.row)
  {
    hide VaultRow, PlanFor, Reconcile, Begin, Reaches;
    if events != [] {
      var most := events[..|events| - 1];
      ContentWithoutPolls(deps, w, most);
      WithoutPolls(deps, w, most);
      InitialInv(deps, w);
      RunKeeps(deps, w, most);
    }
  }

  /** So it happens: one poll of an attested row whose nonce is consumed delivers it, and nobody gets any shares. */
  lemma PollSkipsDeposit(deps: Deps, w: World, poll: Event)
    requires Initial(w) && poll.Poll? && w.row.state == Attested && VaultRow(deps, w.row) && w.row.id.nonce in w.used
    ensures var n := Step(deps, Step(deps, w, poll), Persist);
            n.row.state == Delivered && n.byPoll && n.deposits == [] && VaultRow(deps, n.row) && n.work == Idle
  {
    hide VaultRow, PlanFor, Reconcile, IrisStatusFromHttp;
    var iris := IrisStatusFromHttp(poll.httpStatus, poll.body, poll.retryAfterSeconds);
    ReconcileNeverIllegal(w.row, iris, true);
    VaultIsTruthy(deps, w.row);
    AttestedContentKept(w.row, iris, true);
    SameContentSameVault(deps, w.row, Reconcile(w.row, iris, true).transfer);
  }

  /**
   * What a caller can check before a poll: whatever the answer of Iris, an undelivered row with a vault burn comes out
   * of poll and persistence delivered with no deposit on record exactly when its nonce is consumed by then. Deposits
   * on chain are never touched.
   */
  lemma PollDeliversUnrecordedExactly(deps: Deps, w: World, poll: Event)
    requires Inv(deps, w) && w.work == Idle && poll.Poll?
    requires w.row.state != Delivered && VaultRow(deps, w.row)
    ensures var n := Step(deps, Step(deps, w, poll), Persist);
            && (n.row.state == Delivered && !Truthy(n.row.depositTxHash) <==> w.row.id.nonce in w.used)
            && (n.row.state == Delivered <==> w.row.id.nonce in w.used)
            && n.deposits == w.deposits && n.lost == w.lost && n.byPoll == (w.row.id.nonce in w.used)
  {
    hide VaultRow, PlanFor, Reconcile, IrisStatusFromHttp;
    ReconcileNeverIllegal(w.row, IrisStatusFromHttp(poll.httpStatus, poll.body, poll.retryAfterSeconds),
                          w.row.id.nonce in w.used);
  }

  lemma VaultIsTruthy(deps: Deps, t: Transfer)
    requires VaultRow(deps, t)
    ensures Truthy(t.attestation) && Truthy(t.message)
  {
  }
}
