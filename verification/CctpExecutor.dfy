/**
 * Delivery of one transfer as a step system: a persisted row, the volatile work of one worker, and the chain with its
 * consumed nonces and vault deposits. A crash, a lost answer or another relayer may come between any two steps.
 */
module CctpExecutor {
  import opened Wrappers
  import opened CctpTransfer
  import B = CctpBytes
  import F = CctpForwarder

  /** `deposit_from(payer, beneficiary, assets)` on the vault. */
  datatype Deposit = Deposit(payer: seq<octet>, beneficiary: seq<octet>, assets: nat)

  /** Configuration, the SDK's address check, and the relayer's own address. */
  datatype Deps = Deps(config: F.Config, isAddress: seq<octet> -> bool, relayer: seq<octet>)

  /** How a submission ends: with a hash, with its effect on chain but the answer lost, or without effect. */
  datatype Fate = Confirmed(txHash: string) | LandedUnheard | Refused

  datatype Work =
    | Idle
    | Planned(plan: F.Plan)
    | Crediting(plan: F.Plan)
    | Minting(plan: F.Plan, cur: Transfer)
    | Depositing(plan: F.Plan, cur: Transfer)
    | Finished(next: Transfer, polled: bool, deposited: bool)

  /**
   * `lost` counts the deposits that landed and whose row was never persisted; `byPoll` records that the row became
   * delivered through a poll.
   */
  datatype World = World(row: Transfer, work: Work, used: set<string>, deposits: seq<Deposit>, lost: nat, byPoll: bool)

  datatype Event =
    | Start | CheckNonce | Submit(fate: Fate) | Persist | Crash
    | Poll(httpStatus: int, body: Option<HttpBody>, retryAfterSeconds: Option<int>)
    | OtherRelayer(nonce: string)

  function PlanFor(deps: Deps, t: Transfer): B.Result<F.Plan>
    requires t.message.Some? && t.attestation.Some?
  {
    F.PlanOf(t.message.value, t.attestation.value, deps.config, deps.isAddress)
  }

  /** A transition the executor may take: it never throws. */
  function Move(t: Transfer, to: State, patch: Patch): (n: Transfer)
    requires to == t.state || to in LegalTransitions(t.state)
    ensures n.state == to && n.attestation == Apply(t.attestation, patch.attestation)
  {
    Transition(t, to, patch).transfer
  }

  predicate Direct(plan: F.Plan, t: Transfer) { plan.forwardRecipient == t.id.beneficiary }

  function FailedRow(t: Transfer, reason: string): Transfer
    requires t.state == Attested
  {
    Transition(t, Failed, NO_PATCH.(lastError := Put(Some(reason)))).transfer
  }

  /** The checks before any fee is spent. `Idle` stands for a throw: the row stays as it is. */
  function Begin(deps: Deps, t: Transfer): Work {
    if t.state != Attested || !Truthy(t.attestation) || !Truthy(t.message) then Idle else
    var plan := PlanFor(deps, t);
    if plan.Err? then Finished(FailedRow(t, "plan"), false, false)
    else if plan.value.nonce != t.id.nonce then Finished(FailedRow(t, "nonce"), false, false)
    else if !Direct(plan.value, t) && plan.value.forwardRecipient != deps.relayer then
      Finished(FailedRow(t, "recipient"), false, false)
    else Planned(plan.value)
  }

  function DepositOf(deps: Deps, t: Transfer, plan: F.Plan): Deposit {
    Deposit(deps.relayer, t.id.beneficiary, plan.amount7)
  }

  function DepositPatch(txHash: string): Patch { NO_PATCH.(depositTxHash := Put(Some(txHash))) }
  function MintPatch(txHash: string): Patch { NO_PATCH.(mintTxHash := Put(Some(txHash))) }

  /** The row after the shortcut of a consumed nonce. */
  function Settled(t: Transfer): Transfer
    requires t.attestation.Some?
  {
    Reconcile(t, IrisComplete(t.attestation.value, None), true).transfer
  }

  function AfterCheck(t: Transfer, plan: F.Plan, used: bool): Work
    requires t.state == Attested && t.attestation.Some?
  {
    if !used then Minting(plan, Move(t, Submitting, NO_PATCH))
    else if !Direct(plan, t) && !Truthy(t.depositTxHash) then Crediting(plan)
    else Finished(Settled(t), false, false)
  }

  function AfterMint(t: Transfer, plan: F.Plan, cur: Transfer, txHash: string): Work
    requires cur.state == Submitting
  {
    var minted := Move(cur, Submitting, MintPatch(txHash));
    if Direct(plan, t) then Finished(Move(minted, Delivered, NO_PATCH), false, false)
    else Depositing(plan, minted)
  }

  function AfterDeposit(cur: Transfer, txHash: string): (work: Work)
    requires cur.state == Submitting
    ensures work.Finished?
  {
    var deposited := Move(cur, Submitting, DepositPatch(txHash));
    Finished(Move(deposited, Delivered, NO_PATCH), false, true)
  }

  function AfterCredit(t: Transfer, txHash: string): (work: Work)
    requires t.state == Attested && t.attestation.Some?
    ensures work.Finished?
  {
    Finished(Settled(Move(t, Attested, DepositPatch(txHash))), false, true)
  }

  /** Volatile work belongs to the row it was started from. */
  predicate WorkFits(deps: Deps, t: Transfer, work: Work) {
    match work
    case Idle => true
    case Finished(_, _, _) => true
    case Planned(plan) => Begin(deps, t) == Planned(plan)
    case Crediting(plan) => Begin(deps, t) == Planned(plan) && !Direct(plan, t)
    case Minting(plan, cur) => Begin(deps, t) == Planned(plan) && cur == Move(t, Submitting, NO_PATCH)
    case Depositing(plan, cur) =>
      && Begin(deps, t) == Planned(plan) && !Direct(plan, t)
      && cur.id == t.id && cur.state == Submitting && cur.depositTxHash == t.depositTxHash
      && cur.message == t.message && cur.attestation == t.attestation
  }

  lemma BeginPlans(deps: Deps, t: Transfer)
    requires Begin(deps, t).Planned?
    ensures t.state == Attested && t.attestation.Some? && t.message.Some?
    ensures PlanFor(deps, t) == B.Ok(Begin(deps, t).plan) && Begin(deps, t).plan.nonce == t.id.nonce
  {
  }

  /** Transaction hashes are not empty. */
  predicate EventOk(e: Event) { e.Submit? && e.fate.Confirmed? ==> e.fate.txHash != "" }

  function SubmitMint(deps: Deps, w: World, fate: Fate): (n: World)
    requires WorkFits(deps, w.row, w.work) && w.work.Minting?
    ensures WorkFits(deps, n.row, n.work)
  {
    var plan := w.work.plan;
    if fate == Refused || plan.nonce in w.used then w.(work := Idle)
    else
      var consumed := w.used + {plan.nonce};
      w.(used := consumed, work := if fate.Confirmed? then AfterMint(w.row, plan, w.work.cur, fate.txHash) else Idle)
  }

  function SubmitDeposit(deps: Deps, w: World, fate: Fate, plan: F.Plan, confirmed: Work): (n: World)
    requires confirmed.Finished?
    ensures n.row == w.row && (n.work.Idle? || n.work.Finished?)
  {
    var landed := w.deposits + [DepositOf(deps, w.row, plan)];
    match fate
    case Refused => w.(work := Idle)
    case LandedUnheard => w.(deposits := landed, lost := w.lost + 1, work := Idle)
    case Confirmed(txHash) => w.(deposits := landed, work := confirmed)
  }

  /** What a submission that is heard of finishes with. */
  function Heard(deps: Deps, t: Transfer, work: Work, fate: Fate): (confirmed: Work)
    requires WorkFits(deps, t, work) && (work.Crediting? || work.Depositing?)
    ensures confirmed.Finished?
  {
    BeginPlans(deps, t);
    var txHash := if fate.Confirmed? then fate.txHash else "";
    if work.Crediting? then AfterCredit(t, txHash) else AfterDeposit(work.cur, txHash)
  }

  /** One step; an event that does not fit the phase changes nothing. */
  function Step(deps: Deps, w: World, e: Event): (n: World)
    requires WorkFits(deps, w.row, w.work)
    ensures WorkFits(deps, n.row, n.work)
  {
    match e
    case Start => if w.work == Idle then w.(work := Begin(deps, w.row)) else w
    case CheckNonce =>
      if w.work.Planned? then
        BeginPlans(deps, w.row);
        w.(work := AfterCheck(w.row, w.work.plan, w.work.plan.nonce in w.used))
      else w
    case Submit(fate) =>
      if w.work.Minting? then SubmitMint(deps, w, fate)
      else if w.work.Crediting? || w.work.Depositing? then
        SubmitDeposit(deps, w, fate, w.work.plan, Heard(deps, w.row, w.work, fate))
      else w
    case Persist =>
      if w.work.Finished? then
        w.(row := w.work.next, work := Idle,
           byPoll := w.byPoll || (w.work.polled && w.row.state != Delivered && w.work.next.state == Delivered))
      else w
    case Crash => w.(work := Idle, lost := if w.work.Finished? && w.work.deposited then w.lost + 1 else w.lost)
    case Poll(httpStatus, body, retry) =>
      if w.work == Idle then
        var status := IrisStatusFromHttp(httpStatus, body, retry);
        w.(work := Finished(Reconcile(w.row, status, w.row.id.nonce in w.used).transfer, true, false))
      else w
    case OtherRelayer(nonce) => w.(used := w.used + {nonce})
  }

  function Run(deps: Deps, w: World, events: seq<Event>): (n: World)
    requires WorkFits(deps, w.row, w.work)
    ensures WorkFits(deps, n.row, n.work)
  {
    if events == [] then w else Step(deps, Run(deps, w, events[..|events| - 1]), events[|events| - 1])
  }

  predicate EventsOk(events: seq<Event>) { forall e <- events :: EventOk(e) }

  /** A row as it is created: nothing delivered, nothing deposited, nobody at work. */
  predicate Initial(w: World) {
    && w.row.state !in {Delivered, Submitting} && !Truthy(w.row.depositTxHash)
    && w.work == Idle && w.deposits == [] && w.lost == 0 && !w.byPoll
  }
}
