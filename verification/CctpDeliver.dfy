/**
 * `deliver` as it is written: ordered effects on the chain, one after the other, each able to throw. It performs
 * steps of the step system and no others.
 */
module CctpDeliver {
  import opened Wrappers
  import opened CctpTransfer
  import opened CctpExecutor
  import F = CctpForwarder

  /** Circle's transmitter and the vault, as far as a delivery touches them. `None` is a throw. */
  class Chain {
    var used: set<string>
    var deposits: seq<Deposit>

    constructor ()
      ensures used == {} && deposits == []
    {
      used, deposits := {}, [];
    }

    method IsNonceUsed(nonce: string) returns (answer: bool)
      ensures answer <==> nonce in used
    {
      return nonce in used;
    }

    /** A nonce mints at most once. */
    method MintAndForward(nonce: string, fate: Fate) returns (txHash: Option<string>)
      modifies this`used
      ensures var lands := fate != Refused && nonce !in old(used);
              && used == (if lands then old(used) + {nonce} else old(used))
              && txHash == if lands && fate.Confirmed? then Some(fate.txHash) else None
    {
      if fate == Refused || nonce in used {
        return None;
      }
      used := used + {nonce};
      return if fate.Confirmed? then Some(fate.txHash) else None;
    }

    method DepositFrom(deposit: Deposit, fate: Fate) returns (txHash: Option<string>)
      modifies this`deposits
      ensures deposits == (if fate == Refused then old(deposits) else old(deposits) + [deposit])
      ensures txHash == if fate.Confirmed? then Some(fate.txHash) else None
    {
      if fate == Refused {
        return None;
      }
      deposits := deposits + [deposit];
      return if fate.Confirmed? then Some(fate.txHash) else None;
    }

    method MintByOther(nonce: string)
      modifies this`used
      ensures used == old(used) + {nonce}
    {
      used := used + {nonce};
    }
  }

  /** The steps of one call: `raced` says that another relayer mints between our check and our mint. */
  function DeliverSteps(deps: Deps, w: World, raced: bool, first: Fate, second: Fate): World
    requires w.work == Idle
  {
    var checked := Step(deps, Step(deps, w, Start), CheckNonce);
    var minting :=
      if raced && checked.work.Minting? then Step(deps, checked, OtherRelayer(w.row.id.nonce)) else checked;
    Step(deps, Step(deps, minting, Submit(first)), Submit(second))
  }

  lemma StepsStopped(deps: Deps, w: World, raced: bool, first: Fate, second: Fate)
    requires w.work == Idle && !Begin(deps, w.row).Planned?
    ensures DeliverSteps(deps, w, raced, first, second) == w.(work := Begin(deps, w.row))
  {
    hide PlanFor;
  }

  function Landed(deps: Deps, w: World, plan: F.Plan, fate: Fate): seq<Deposit> {
    w.deposits + if fate == Refused then [] else [DepositOf(deps, w.row, plan)]
  }

  lemma StepsConsumed(deps: Deps, w: World, raced: bool, first: Fate, second: Fate, plan: F.Plan)
    requires w.work == Idle && Begin(deps, w.row) == Planned(plan) && plan.nonce in w.used
    ensures w.row.state == Attested && w.row.attestation.Some?
    ensures var n := DeliverSteps(deps, w, raced, first, second);
            n.used == w.used
            && if Direct(plan, w.row) || Truthy(w.row.depositTxHash) then
                 n.work == Finished(Settled(w.row), false, false) && n.deposits == w.deposits
               else
                 && n.deposits == Landed(deps, w, plan, first)
                 && n.work == if first.Confirmed? then AfterCredit(w.row, first.txHash) else Idle
  {
    hide PlanFor, Begin, Settled, AfterCredit, AfterDeposit;
    BeginPlans(deps, w.row);
  }

  lemma StepsUnconsumed(deps: Deps, w: World, raced: bool, first: Fate, second: Fate, plan: F.Plan)
    requires w.work == Idle && Begin(deps, w.row) == Planned(plan) && plan.nonce !in w.used
    ensures w.row.state == Attested && plan.nonce == w.row.id.nonce
    ensures var n := DeliverSteps(deps, w, raced, first, second);
            && n.used == (if raced || first != Refused then w.used + {plan.nonce} else w.used)
            && if raced || !first.Confirmed? then n.work == Idle && n.deposits == w.deposits
               else
                 var minted := AfterMint(w.row, plan, Move(w.row, Submitting, NO_PATCH), first.txHash);
                 if minted.Depositing? then
                   && n.deposits == Landed(deps, w, plan, second)
                   && n.work == if second.Confirmed? then AfterDeposit(minted.cur, second.txHash) else Idle
                 else n.work == minted && n.deposits == w.deposits
  {
    hide PlanFor, Begin, AfterCredit, AfterDeposit, Move;
    BeginPlans(deps, w.row);
  }

  class Executor {
    const deps: Deps
    const chain: Chain

    constructor (deps: Deps, chain: Chain)
      ensures this.deps == deps && this.chain == chain
    {
      this.deps, this.chain := deps, chain;
    }

    method DepositToVault(t: Transfer, plan: F.Plan, fate: Fate) returns (txHash: Option<string>)
      modifies chain`deposits
      ensures chain.deposits
              == old(chain.deposits) + (if fate == Refused then [] else [DepositOf(deps, t, plan)])
      ensures txHash == if fate.Confirmed? then Some(fate.txHash) else None
    {
      txHash := chain.DepositFrom(Deposit(deps.relayer, t.id.beneficiary, plan.amount7), fate);
    }

    /** Returns the final row, or nothing when it throws; `first` and `second` are the fates of its submissions. */
    method Deliver(t: Transfer, raced: bool, first: Fate, second: Fate) returns (r: Option<Transfer>)
      modifies chain
      ensures var w := World(t, Idle, old(chain.used), old(chain.deposits), 0, false);
              var n := DeliverSteps(deps, w, raced, first, second);
              && chain.used == n.used && chain.deposits == n.deposits
              && r == if n.work.Finished? then Some(n.work.next) else None
    {
      hide F.PlanOf, Reconcile, PlanFor, Move, Step, DeliverSteps;
      ghost var w := World(t, Idle, chain.used, chain.deposits, 0, false);
      if !Begin(deps, t).Planned? {
        StepsStopped(deps, w, raced, first, second);
      }
      if t.state != Attested || !Truthy(t.attestation) || !Truthy(t.message) {
        return None;
      }
      var planned := PlanFor(deps, t);
      if planned.Err? {
        return Some(FailedRow(t, "plan"));
      }
      var plan := planned.value;
      if plan.nonce != t.id.nonce {
        return Some(FailedRow(t, "nonce"));
      }
      var direct := Direct(plan, t);
      if !direct && plan.forwardRecipient != deps.relayer {
        return Some(FailedRow(t, "recipient"));
      }
      var consumed := chain.IsNonceUsed(plan.nonce);
      if consumed {
        StepsConsumed(deps, w, raced, first, second, plan);
        var cur := t;
        if !direct && !Truthy(t.depositTxHash) {
          var txHash := DepositToVault(t, plan, first);
          if txHash == None {
            return None;
          }
          cur := Move(cur, cur.state, DepositPatch(txHash.value));
        }
        return Some(Reconcile(cur, IrisComplete(t.attestation.value, None), true).transfer);
      }
      StepsUnconsumed(deps, w, raced, first, second, plan);
      var cur := Move(t, Submitting, NO_PATCH);
      if raced {
        chain.MintByOther(plan.nonce);
      }
      var mint := chain.MintAndForward(plan.nonce, first);
      if mint == None {
        return None;
      }
      cur := Move(cur, Submitting, MintPatch(mint.value));
      if !direct {
        var txHash := DepositToVault(t, plan, second);
        if txHash == None {
          return None;
        }
        cur := Move(cur, Submitting, DepositPatch(txHash.value));
      }
      return Some(Move(cur, Delivered, NO_PATCH));
    }
  }

  /** Every call is a run of the step system, so everything proved of runs holds of it. */
  lemma DeliverIsARun(deps: Deps, w: World, raced: bool, first: Fate, second: Fate) returns (events: seq<Event>)
    requires w.work == Idle && EventOk(Submit(first)) && EventOk(Submit(second))
    ensures EventsOk(events) && Run(deps, w, events) == DeliverSteps(deps, w, raced, first, second)
    ensures forall e <- events :: !e.Poll?
  {
    hide Step, Begin, PlanFor, AfterCheck;
    var begun := [Start, CheckNonce];
    assert [Start][..0] == [];
    assert Run(deps, w, [Start]) == Step(deps, w, Start);
    assert begun[..1] == [Start];
    var checked := Run(deps, w, begun);
    var minting := if raced && checked.work.Minting? then begun + [OtherRelayer(w.row.id.nonce)] else begun;
    assert (begun + [OtherRelayer(w.row.id.nonce)])[..2] == begun;
    var reached := Run(deps, w, minting);
    assert reached
        == if raced && checked.work.Minting? then Step(deps, checked, OtherRelayer(w.row.id.nonce)) else checked;
    assert (minting + [Submit(first)])[..|minting|] == minting;
    assert Run(deps, w, minting + [Submit(first)]) == Step(deps, reached, Submit(first));
    events := minting + [Submit(first)] + [Submit(second)];
    assert events[..|events| - 1] == minting + [Submit(first)];
  }
}
