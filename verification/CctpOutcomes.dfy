/**
 * What a poll and a delivery lead to, whole: the row that is persisted, field by field, what has landed on chain, and
 * what an interruption leaves, stated on the row, the answers and the plan.
 */
module CctpOutcomes {
  import opened Wrappers
  import opened CctpTransfer
  import opened CctpExecutor
  import opened CctpDeliver
  import F = CctpForwarder

  /** Absent or empty. */
  predicate Missing(o: Option<string>) { o.Some? ==> o.value == "" }

  // ---------------------------------------------------------------- what Iris answered

  /** `PENDING` in any mixture of cases, dotless i included, is no attestation. */
  lemma SentinelExactly(s: string)
    ensures IsSentinel(s) <==>
              && |s| == 7 && s[0] in {'P', 'p'} && s[1] in {'E', 'e'} && s[2] in {'N', 'n'} && s[3] in {'D', 'd'}
              && s[4] in {'I', 'i', '\U{131}'} && s[5] in {'N', 'n'} && s[6] in {'G', 'g'}
  {
    if |s| == 7 {
      UpperIs(s[0], 'P'); UpperIs(s[1], 'E'); UpperIs(s[2], 'N'); UpperIs(s[3], 'D');
      UpperIs(s[4], 'I'); UpperIs(s[5], 'N'); UpperIs(s[6], 'G');
      hide Upper;
      var word := "PENDING";
      assert IsSentinel(s) <==> forall i :: 0 <= i < 7 ==> Upper(s[i]) == word[i];
      assert word[0] == 'P' && word[1] == 'E' && word[2] == 'N' && word[3] == 'D';
      assert word[4] == 'I' && word[5] == 'N' && word[6] == 'G';
    }
  }

  lemma UpperIs(c: char, u: char)
    requires 'A' <= u <= 'Z'
    ensures Upper(c) == u <==> c == u || c == (u as int + 32) as char || (u == 'I' && c == '\U{131}')
  {
  }

  /** Every answer, with its contents: what is attested, what is refused, and how long to wait. */
  lemma IrisExactly(httpStatus: int, body: Option<HttpBody>, retry: Option<int>)
    ensures var iris := IrisStatusFromHttp(httpStatus, body, retry);
            var complete := && httpStatus == 200 && body.Some?
                            && (body.value.status.Some? ==> body.value.status.value == "complete")
                            && body.value.attestation.Some? && body.value.attestation.value != ""
                            && !IsSentinel(body.value.attestation.value);
            var refused := httpStatus == 400 && body.Some? && body.value.error.Some? && body.value.error.value != "";
            if complete then iris == IrisComplete(body.value.attestation.value, body.value.message)
            else if refused then iris == IrisError(body.value.error.value)
            else if httpStatus in {200, 404} || 500 <= httpStatus then iris == IrisPending
            else if httpStatus == 429 then iris == IrisBackoff(1000 * if retry.Some? then retry.value else 5)
            else iris == IrisBackoff(if httpStatus in {401, 403} then 60_000 else 30_000)
  {
    hide IsSentinel;
  }

  // ---------------------------------------------------------------- the choke point

  /** The edges of the table. */
  predicate Edge(from: State, to: State) {
    || (from == Pending && (to == Attested || to == Failed))
    || (from == Attested && (to == Submitting || to == Failed))
    || (from == Submitting && to != Pending)
    || (from == Failed && to == Delivered)
  }

  /**
   * A transition, whole: it throws exactly when it leaves the state off the table's edges. Otherwise the keys of the
   * patch are written; along an edge, and only then, an error not in the patch is cleared, unless the way is to failed.
   */
  lemma TransitionExactly(t: Transfer, to: State, patch: Patch)
    ensures var n := Transition(t, to, patch);
            if t.state != to && !Edge(t.state, to) then n == Illegal(t.state, to)
            else
              && n.Moved? && n.transfer.state == to && n.transfer.id == t.id && n.transfer.attempts == t.attempts
              && n.transfer.attestation == (if patch.attestation.Put? then patch.attestation.value else t.attestation)
              && n.transfer.message == (if patch.message.Put? then patch.message.value else t.message)
              && n.transfer.mintTxHash == (if patch.mintTxHash.Put? then patch.mintTxHash.value else t.mintTxHash)
              && n.transfer.depositTxHash
                 == (if patch.depositTxHash.Put? then patch.depositTxHash.value else t.depositTxHash)
              && n.transfer.lastError
                 == (if patch.lastError.Put? then patch.lastError.value
                     else if Edge(t.state, to) && to != Failed && !(t.state == to && patch == NO_PATCH) then None
                     else t.lastError)
  {
    EdgesExactly(t.state, to);
    hide LegalTransitions;
  }

  lemma EdgesExactly(from: State, to: State)
    ensures to in LegalTransitions(from) <==> Edge(from, to)
  {
  }

  // ---------------------------------------------------------------- polling

  /**
   * Reconciliation, whole. An unused nonce moves a pending row only: to attested with this attestation and message, to
   * failed with this text, or one attempt further. A consumed one delivers every row that is not delivered yet, and
   * fills in attestation and message where the row was pending or failed or had no attestation.
   */
  lemma ReconcileExactly(t: Transfer, iris: IrisStatus, used: bool)
    ensures var n := Reconcile(t, iris, used).transfer;
            if t.state == Delivered || (!used && t.state != Pending) then n == t
            else if !used then
              match iris
              case IrisComplete(attestation, message) =>
                n == t.(state := Attested, attestation := Some(attestation), message := message, lastError := None)
              case IrisError(error) => n == t.(state := Failed, lastError := Some(error))
              case _ => n == t.(attempts := t.attempts + 1)
            else
              var filled :=
                if iris.IrisComplete? && (t.state in {Pending, Failed} || Missing(t.attestation))
                then t.(attestation := Some(iris.attestation), message := iris.message) else t;
              n == filled.(state := Delivered, lastError := None)
  {
    if used {
      match t.state
      case Pending =>
      case Attested =>
      case Submitting =>
      case Delivered =>
      case Failed =>
    }
  }

  /** A poll asks about this row's nonce, and persisting it stores the reconciled row. */
  lemma PollExactly(deps: Deps, w: World, httpStatus: int, body: Option<HttpBody>, retry: Option<int>)
    requires w.work == Idle
    ensures var n := Step(deps, Step(deps, w, Poll(httpStatus, body, retry)), Persist);
            var iris := IrisStatusFromHttp(httpStatus, body, retry);
            var next := Reconcile(w.row, iris, w.row.id.nonce in w.used).transfer;
            n == w.(row := next, byPoll := w.byPoll || (w.row.state != Delivered && next.state == Delivered))
  {
    hide Reconcile, IrisStatusFromHttp;
  }

  // ---------------------------------------------------------------- delivering

  /** A row that can be delivered: attested, with a plan for this nonce to its beneficiary or to our relayer. */
  predicate Sound(deps: Deps, t: Transfer) {
    && t.state == Attested && t.attestation.Some? && t.attestation.value != ""
    && t.message.Some? && t.message.value != ""
    && var planned := F.PlanOf(t.message.value, t.attestation.value, deps.config, deps.isAddress);
    && planned.Ok? && planned.value.nonce == t.id.nonce
    && (planned.value.forwardRecipient == t.id.beneficiary || planned.value.forwardRecipient == deps.relayer)
  }

  function SoundPlan(deps: Deps, t: Transfer): F.Plan
    requires Sound(deps, t)
  {
    F.PlanOf(t.message.value, t.attestation.value, deps.config, deps.isAddress).value
  }

  lemma SoundBegins(deps: Deps, t: Transfer)
    ensures Sound(deps, t) <==> Begin(deps, t).Planned?
    ensures Sound(deps, t) ==>
              && Begin(deps, t).plan == SoundPlan(deps, t)
              && (Direct(Begin(deps, t).plan, t) <==> SoundPlan(deps, t).forwardRecipient == t.id.beneficiary)
  {
    hide F.PlanOf;
  }

  /**
   * A row that cannot be delivered costs no fee. Without attestation or message, or in another state, `deliver` throws
   * and nothing changes; with a plan that is refused, is for another nonce or pays a stranger, the row fails.
   */
  lemma UnsoundDelivery(deps: Deps, w: World, raced: bool, first: Fate, second: Fate)
    requires w.work == Idle && !Sound(deps, w.row)
    ensures var n := Step(deps, DeliverSteps(deps, w, raced, first, second), Persist);
            if w.row.state != Attested || Missing(w.row.attestation) || Missing(w.row.message)
            then n == w
            else
              var planned := F.PlanOf(w.row.message.value, w.row.attestation.value, deps.config, deps.isAddress);
              n == w.(row := w.row.(state := Failed, lastError := Some(
                if planned.Err? then "plan" else if planned.value.nonce != w.row.id.nonce then "nonce"
                else "recipient")))
  {
    hide DeliverSteps;
    StepsStopped(deps, w, raced, first, second);
    BeginUnsound(deps, w.row);
    hide F.PlanOf, Begin;
  }

  lemma BeginUnsound(deps: Deps, t: Transfer)
    requires !Sound(deps, t)
    ensures if t.state != Attested || Missing(t.attestation) || Missing(t.message)
            then Begin(deps, t) == Idle
            else
              var planned := F.PlanOf(t.message.value, t.attestation.value, deps.config, deps.isAddress);
              Begin(deps, t) == Finished(t.(state := Failed, lastError := Some(
                if planned.Err? then "plan" else if planned.value.nonce != t.id.nonce then "nonce"
                else "recipient")), false, false)
  {
    hide F.PlanOf, FailedRow;
    if t.state == Attested && Truthy(t.attestation) && Truthy(t.message) {
      var planned := PlanFor(deps, t);
      if planned.Err? {
        FailedAs(t, "plan");
      } else if planned.value.nonce != t.id.nonce {
        FailedAs(t, "nonce");
      } else {
        assert !Direct(planned.value, t) && planned.value.forwardRecipient != deps.relayer;
        FailedAs(t, "recipient");
      }
    }
  }

  lemma FailedAs(t: Transfer, reason: string)
    requires t.state == Attested
    ensures FailedRow(t, reason) == t.(state := Failed, lastError := Some(reason))
  {
  }

  /**
   * Undisturbed, one call delivers every sound row. It records the hash of its mint, unless the nonce was consumed
   * before. A row that pays its beneficiary leaves no deposit; one that pays the relayer leaves exactly one, for the
   * beneficiary and the planned amount, with its hash recorded, unless the row of a consumed nonce records one.
   */
  lemma UndisturbedDelivery(deps: Deps, w: World, first: Fate, second: Fate)
    requires w.work == Idle && Sound(deps, w.row) && first.Confirmed? && second.Confirmed?
    ensures var n := Step(deps, DeliverSteps(deps, w, false, first, second), Persist);
            var row, plan := w.row, SoundPlan(deps, w.row);
            var consumed := row.id.nonce in w.used;
            var deposits := && plan.forwardRecipient != row.id.beneficiary
                            && (consumed ==> Missing(row.depositTxHash));
            n == w.(
              row := row.(
                state := Delivered, lastError := None,
                mintTxHash := if consumed then row.mintTxHash else Some(first.txHash),
                depositTxHash := if !deposits then row.depositTxHash
                                 else Some(if consumed then first.txHash else second.txHash)),
              deposits := w.deposits
                + (if deposits then [Deposit(deps.relayer, row.id.beneficiary, plan.amount7)] else []),
              used := w.used + {row.id.nonce})
  {
    SoundBegins(deps, w.row);
    hide F.PlanOf, PlanFor, Begin, DeliverSteps, Reconcile, Sound;
    StepsKeep(deps, w, first, second);
    if w.row.id.nonce in w.used {
      UndisturbedConsumed(deps, w, first, second);
      assert w.used + {w.row.id.nonce} == w.used;
    } else {
      UndisturbedUnconsumed(deps, w, first, second);
    }
  }

  lemma UndisturbedConsumed(deps: Deps, w: World, first: Fate, second: Fate)
    requires w.work == Idle && Sound(deps, w.row) && w.row.id.nonce in w.used && first.Confirmed?
    ensures var n := DeliverSteps(deps, w, false, first, second);
            var row, plan := w.row, SoundPlan(deps, w.row);
            var deposits := plan.forwardRecipient != row.id.beneficiary && Missing(row.depositTxHash);
            && n.work == Finished(row.(
                 state := Delivered, lastError := None,
                 depositTxHash := if deposits then Some(first.txHash) else row.depositTxHash), false, deposits)
            && n.deposits == w.deposits
                 + (if deposits then [Deposit(deps.relayer, row.id.beneficiary, plan.amount7)] else [])
            && n.used == w.used
  {
    var t := w.row;
    SoundBegins(deps, t);
    BeginPlans(deps, t);
    var plan := Begin(deps, t).plan;
    assert Truthy(t.attestation);
    hide F.PlanOf, PlanFor, Begin, DeliverSteps, Reconcile, Settled, Sound, SoundPlan;
    StepsConsumed(deps, w, false, first, second, plan);
    SettledRow(t);
    SettledRow(Move(t, Attested, DepositPatch(first.txHash)));
  }

  lemma UndisturbedUnconsumed(deps: Deps, w: World, first: Fate, second: Fate)
    requires w.work == Idle && Sound(deps, w.row) && w.row.id.nonce !in w.used && first.Confirmed? && second.Confirmed?
    ensures var n := DeliverSteps(deps, w, false, first, second);
            var row, plan := w.row, SoundPlan(deps, w.row);
            var deposits := plan.forwardRecipient != row.id.beneficiary;
            && n.work == Finished(row.(
                 state := Delivered, lastError := None, mintTxHash := Some(first.txHash),
                 depositTxHash := if deposits then Some(second.txHash) else row.depositTxHash), false, deposits)
            && n.deposits == w.deposits
                 + (if deposits then [Deposit(deps.relayer, row.id.beneficiary, plan.amount7)] else [])
            && n.used == w.used + {row.id.nonce}
  {
    SoundBegins(deps, w.row);
    BeginPlans(deps, w.row);
    var plan := Begin(deps, w.row).plan;
    hide F.PlanOf, PlanFor, Begin, DeliverSteps, Sound, SoundPlan;
    StepsUnconsumed(deps, w, false, first, second, plan);
  }

  lemma SettledRow(t: Transfer)
    requires t.state == Attested && Truthy(t.attestation)
    ensures Settled(t) == t.(state := Delivered, lastError := None)
  {
    ReconcileExactly(t, IrisComplete(t.attestation.value, None), true);
  }

  lemma StepsKeep(deps: Deps, w: World, first: Fate, second: Fate)
    requires w.work == Idle && first.Confirmed? && second.Confirmed?
    ensures var n := DeliverSteps(deps, w, false, first, second);
            n.lost == w.lost && n.row == w.row && n.byPoll == w.byPoll
  {
    hide PlanFor, Begin, Reconcile;
  }

  /**
   * Interrupted before its mint is confirmed, a call leaves the row for another try and no deposit; the nonce is
   * consumed exactly when someone's mint landed.
   */
  lemma InterruptedMint(deps: Deps, w: World, raced: bool, first: Fate, second: Fate)
    requires w.work == Idle && Sound(deps, w.row) && w.row.id.nonce !in w.used && (raced || !first.Confirmed?)
    ensures var n := Step(deps, DeliverSteps(deps, w, raced, first, second), Persist);
            n == w.(used := if raced || first == LandedUnheard then w.used + {w.row.id.nonce} else w.used)
  {
    SoundBegins(deps, w.row);
    BeginPlans(deps, w.row);
    var plan := Begin(deps, w.row).plan;
    hide F.PlanOf, PlanFor, Begin, DeliverSteps;
    StepsUnconsumed(deps, w, raced, first, second, plan);
    InterruptedKeep(deps, w, raced, first, second);
  }

  lemma InterruptedKeep(deps: Deps, w: World, raced: bool, first: Fate, second: Fate)
    requires w.work == Idle && Begin(deps, w.row).Planned? && (raced || !first.Confirmed?)
    requires w.row.id.nonce !in w.used
    ensures var n := DeliverSteps(deps, w, raced, first, second);
            n.lost == w.lost && n.row == w.row && n.byPoll == w.byPoll
  {
    MintIsNext(deps, w);
    var checked := Step(deps, Step(deps, w, Start), CheckNonce);
    RelayerIsAside(deps, checked, w.row.id.nonce);
    var minting := if raced then Step(deps, checked, OtherRelayer(w.row.id.nonce)) else checked;
    MintStops(deps, minting, first);
    IdleSubmit(deps, Step(deps, minting, Submit(first)), second);
    hide Step, Begin;
  }

  lemma MintIsNext(deps: Deps, w: World)
    requires w.work == Idle && Begin(deps, w.row).Planned? && w.row.id.nonce !in w.used
    ensures var checked := Step(deps, Step(deps, w, Start), CheckNonce);
            checked == w.(work := checked.work) && checked.work.Minting? && checked.work.plan.nonce == w.row.id.nonce
  {
    BeginPlans(deps, w.row);
    hide F.PlanOf, PlanFor, Begin, Move;
  }

  lemma RelayerIsAside(deps: Deps, w: World, nonce: string)
    requires WorkFits(deps, w.row, w.work)
    ensures Step(deps, w, OtherRelayer(nonce)) == w.(used := w.used + {nonce})
  {
    hide WorkFits;
  }

  lemma MintStops(deps: Deps, w: World, fate: Fate)
    requires WorkFits(deps, w.row, w.work) && w.work.Minting? && (w.work.plan.nonce in w.used || !fate.Confirmed?)
    ensures var n := Step(deps, w, Submit(fate)); n == w.(work := Idle, used := n.used)
  {
    hide WorkFits;
  }

  lemma IdleSubmit(deps: Deps, w: World, fate: Fate)
    requires w.work == Idle
    ensures Step(deps, w, Submit(fate)) == w
  {
  }

  /**
   * Interrupted at its deposit, a call leaves the row as it was, with the nonce consumed; a deposit that landed
   * unheard is the one that is lost.
   */
  lemma InterruptedDeposit(deps: Deps, w: World, first: Fate, second: Fate)
    requires w.work == Idle && Sound(deps, w.row) && SoundPlan(deps, w.row).forwardRecipient != w.row.id.beneficiary
    requires if w.row.id.nonce in w.used then Missing(w.row.depositTxHash) && !first.Confirmed?
             else first.Confirmed? && !second.Confirmed?
    ensures var n := Step(deps, DeliverSteps(deps, w, false, first, second), Persist);
            var landed := LandedUnheard == if w.row.id.nonce in w.used then first else second;
            var deposit := Deposit(deps.relayer, w.row.id.beneficiary, SoundPlan(deps, w.row).amount7);
            n == w.(used := w.used + {w.row.id.nonce},
                    deposits := w.deposits + (if landed then [deposit] else []),
                    lost := w.lost + if landed then 1 else 0)
  {
    SoundBegins(deps, w.row);
    hide F.PlanOf, PlanFor, Begin, Sound, SoundPlan, DeliverSteps, Step;
    if w.row.id.nonce in w.used {
      CreditStopped(deps, w, first, second);
      assert w.used + {w.row.id.nonce} == w.used;
    } else {
      VaultStopped(deps, w, first, second);
    }
    NothingToPersist(deps, DeliverSteps(deps, w, false, first, second));
  }

  lemma NothingToPersist(deps: Deps, w: World)
    requires w.work == Idle
    ensures Step(deps, w, Persist) == w
  {
  }

  lemma CreditStopped(deps: Deps, w: World, first: Fate, second: Fate)
    requires w.work == Idle && Begin(deps, w.row).Planned? && w.row.id.nonce in w.used && !first.Confirmed?
    requires !Direct(Begin(deps, w.row).plan, w.row) && !Truthy(w.row.depositTxHash)
    ensures DeliverSteps(deps, w, false, first, second) == Stopped(deps, w, Begin(deps, w.row).plan, first)
  {
    hide F.PlanOf, PlanFor, Begin, Step;
    CreditIsNext(deps, w);
    var checked := Step(deps, Step(deps, w, Start), CheckNonce);
    DepositStops(deps, checked, first);
    IdleSubmit(deps, Step(deps, checked, Submit(first)), second);
  }

  lemma VaultStopped(deps: Deps, w: World, first: Fate, second: Fate)
    requires w.work == Idle && Begin(deps, w.row).Planned? && w.row.id.nonce !in w.used
    requires !Direct(Begin(deps, w.row).plan, w.row) && first.Confirmed? && !second.Confirmed?
    ensures DeliverSteps(deps, w, false, first, second)
            == Stopped(deps, w.(used := w.used + {w.row.id.nonce}), Begin(deps, w.row).plan, second)
  {
    hide F.PlanOf, PlanFor, Begin, Step;
    MintIsNext(deps, w);
    var checked := Step(deps, Step(deps, w, Start), CheckNonce);
    MintGoesOn(deps, checked, first);
    DepositStops(deps, Step(deps, checked, Submit(first)), second);
  }

  /** A worker that stopped at a deposit which was not confirmed. */
  function Stopped(deps: Deps, w: World, plan: F.Plan, fate: Fate): World {
    w.(work := Idle,
       deposits := w.deposits + (if fate == LandedUnheard then [DepositOf(deps, w.row, plan)] else []),
       lost := w.lost + if fate == LandedUnheard then 1 else 0)
  }

  lemma CreditIsNext(deps: Deps, w: World)
    requires w.work == Idle && Begin(deps, w.row).Planned? && w.row.id.nonce in w.used
    requires !Direct(Begin(deps, w.row).plan, w.row) && !Truthy(w.row.depositTxHash)
    ensures Step(deps, Step(deps, w, Start), CheckNonce) == w.(work := Crediting(Begin(deps, w.row).plan))
  {
    BeginPlans(deps, w.row);
    hide F.PlanOf, PlanFor, Begin, Settled;
  }

  lemma MintGoesOn(deps: Deps, w: World, fate: Fate)
    requires WorkFits(deps, w.row, w.work) && w.work.Minting? && w.work.plan.nonce !in w.used && fate.Confirmed?
    requires !Direct(w.work.plan, w.row)
    ensures var n := Step(deps, w, Submit(fate));
            && n == w.(work := n.work, used := w.used + {w.work.plan.nonce})
            && n.work.Depositing? && n.work.plan == w.work.plan
  {
    hide Begin, Move;
  }

  lemma DepositStops(deps: Deps, w: World, fate: Fate)
    requires WorkFits(deps, w.row, w.work) && (w.work.Crediting? || w.work.Depositing?) && !fate.Confirmed?
    ensures Step(deps, w, Submit(fate)) == Stopped(deps, w, w.work.plan, fate)
  {
    hide WorkFits;
  }

  /** Progress: a completed answer to a pending row, persisted, and one undisturbed call, persisted, deliver it. */
  lemma CompletedPollDelivers(deps: Deps, w: World, body: HttpBody, first: Fate, second: Fate)
    requires w.work == Idle && w.row.state == Pending && w.row.id.nonce !in w.used
    requires (body.status.Some? ==> body.status.value == "complete") && first.Confirmed? && second.Confirmed?
    requires body.attestation.Some? && body.attestation.value != "" && !IsSentinel(body.attestation.value)
    requires Sound(deps, w.row.(state := Attested, attestation := body.attestation, message := body.message))
    ensures var polled := Step(deps, Step(deps, w, Poll(200, Some(body), None)), Persist);
            && polled.work == Idle
            && var n := Step(deps, DeliverSteps(deps, polled, false, first, second), Persist);
            && n.row.state == Delivered && n.row.attestation == body.attestation && n.row.message == body.message
            && n.row.mintTxHash == Some(first.txHash) && n.row.id.nonce in n.used && n.byPoll == w.byPoll
  {
    hide F.PlanOf, Sound, IsSentinel, DeliverSteps, Reconcile, Begin, PlanFor;
    IrisExactly(200, Some(body), None);
    ReconcileExactly(w.row, IrisStatusFromHttp(200, Some(body), None), false);
    PollExactly(deps, w, 200, Some(body), None);
    var polled := Step(deps, Step(deps, w, Poll(200, Some(body), None)), Persist);
    assert polled.row == w.row.(state := Attested, attestation := body.attestation, message := body.message,
                                lastError := None);
    SoundIgnoresErrors(deps, w.row.(state := Attested, attestation := body.attestation, message := body.message));
    UndisturbedDelivery(deps, polled, first, second);
  }

  lemma SoundIgnoresErrors(deps: Deps, t: Transfer)
    requires Sound(deps, t)
    ensures Sound(deps, t.(lastError := None))
  {
    hide F.PlanOf;
  }
}
