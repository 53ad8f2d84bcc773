/**
 * What the rows of the loans table say: every row that a scan adds is its event, every row that reconciliation closes
 * is closed by its event, to the unit and the second, and a cycle closes every row it should.
 */
module ChainSyncContents {
  import opened Wrappers
  import opened ChainSync
  import R = ChainSyncRuns
  import S = ChainSyncScan

  // ---------------------------------------------------------------- rows a scan adds

  /** The row of an opened loan: the event's wallet, units, seconds and hash; open, nothing paid, no receipt. */
  predicate MirrorsEvent(l: Loan, e: OpenedEvent) {
    && l.borrower == e.borrower && l.hasUser
    && l.principal * 10_000_000.0 == e.principal as real
    && l.amountDueAtOpen * 10_000_000.0 == e.amountDue as real
    && l.feeBps == e.feeBps && l.startAt == e.timestamp * 1000 && l.dueAt == e.due * 1000
    && -43_200 <= e.due - e.timestamp - 86_400 * l.tenorDays < 43_200
    && l.openTxHash == Some(e.txHash) && l.closeTxHash == None && l.closedAt == None
    && l.status == Open && !l.repaidOnTime && l.syncedByChain
    && l.amountPaid == 0.0 && l.lateFeesCollectedUsd == 0.0
  }

  /** An event is inserted exactly when its hash is new and its wallet has a user; then one row is added, its mirror. */
  lemma InsertedExactly(s: Store, e: OpenedEvent, users: set<string>)
    requires IdsOk(s)
    ensures var n := Inserted(s, e, users);
            if e.borrower in users && forall k <- s.rows :: s.rows[k].openTxHash != Some(e.txHash) then
              && n.rows.Keys == s.rows.Keys + {s.nextId} && n.nextId == s.nextId + 1 && n.cursor == s.cursor
              && (forall k <- s.rows :: n.rows[k] == s.rows[k])
              && MirrorsEvent(n.rows[s.nextId], e)
            else n == s
  {
    MissingLoanMirrors(e);
    hide MissingLoan, MirrorsEvent;
  }

  lemma MissingLoanMirrors(e: OpenedEvent)
    ensures MirrorsEvent(MissingLoan(e), e)
  {
    AmountUnits(e.principal);
    AmountUnits(e.amountDue);
    hide Amount;
  }

  lemma AmountUnits(units: nat)
    ensures Amount(units) * 10_000_000.0 == units as real
  {
  }

  /** A row that mirrors one of the events, of a wallet with a user, whose insert did not fail. */
  ghost predicate FromEvents(l: Loan, events: seq<OpenedEvent>, users: set<string>, fails: nat -> bool) {
    exists k :: 0 <= k < |events| && MirrorsEvent(l, events[k]) && events[k].borrower in users && !fails(k)
  }

  /** Later rows are the earlier ones, untouched, and mirrors of events. */
  ghost predicate OnlyEventsAdded(s: Store, n: Store, events: seq<OpenedEvent>, users: set<string>,
                                  fails: nat -> bool) {
    && (forall k <- s.rows :: k in n.rows && n.rows[k] == s.rows[k])
    && (forall k <- n.rows :: k !in s.rows ==> FromEvents(n.rows[k], events, users, fails))
  }

  lemma {:induction false} InsertAllMirrors(s: Store, events: seq<OpenedEvent>, users: set<string>, fails: nat -> bool)
    requires IdsOk(s)
    ensures IdsOk(InsertAll(s, events, users, fails))
    ensures OnlyEventsAdded(s, InsertAll(s, events, users, fails), events, users, fails)
  {
    hide MirrorsEvent, Inserted;
    if events != [] {
      var n := |events| - 1;
      InsertAllMirrors(s, events[..n], users, fails);
      var before := InsertAll(s, events[..n], users, fails);
      InsertedExactly(before, events[n], users);
      forall l: Loan | FromEvents(l, events[..n], users, fails) ensures FromEvents(l, events, users, fails) {
        var k :| 0 <= k < n && MirrorsEvent(l, events[..n][k]) && events[..n][k].borrower in users && !fails(k);
        assert MirrorsEvent(l, events[k]);
      }
    }
  }

  /** A row that mirrors an event some scan of the run got to. */
  ghost predicate FromRun(l: Loan, s: Store, inputs: seq<S.Input>) {
    exists j: nat :: j < |inputs| && FromInput(l, S.Scans(s, inputs[..j]), inputs[j])
  }

  ghost predicate FromInput(l: Loan, s: Store, i: S.Input) {
    FromEvents(l, S.Processed(s, i), i.users, i.fails)
  }

  lemma ScanMirrors(s: Store, i: S.Input)
    requires IdsOk(s)
    ensures IdsOk(S.ScanOnce(s, i))
    ensures OnlyEventsAdded(s, S.ScanOnce(s, i), S.Processed(s, i), i.users, i.fails)
  {
    hide FromEvents;
    var from := s.(cursor := ScanFrom(s.cursor, i.head));
    InsertAllMirrors(from, S.Processed(s, i), i.users, i.fails);
    hide InsertAll;
    S.NothingInserted(from, i.users, i.fails);
  }

  /**
   * Over any run of scans, crashes and failures included: rows that were there stay as they were, and every other row
   * is the mirror of an event that some scan of the run got to.
   */
  lemma {:induction false} ScansAddOnlyEvents(s: Store, inputs: seq<S.Input>)
    requires IdsOk(s)
    ensures IdsOk(S.Scans(s, inputs))
    ensures forall k <- s.rows :: k in S.Scans(s, inputs).rows && S.Scans(s, inputs).rows[k] == s.rows[k]
    ensures forall k <- S.Scans(s, inputs).rows :: k !in s.rows ==> FromRun(S.Scans(s, inputs).rows[k], s, inputs)
  {
    hide FromEvents, S.ScanOnce;
    if inputs != [] {
      var n := |inputs| - 1;
      ScansAddOnlyEvents(s, inputs[..n]);
      ScanMirrors(S.Scans(s, inputs[..n]), inputs[n]);
      forall l: Loan | FromRun(l, s, inputs[..n]) ensures FromRun(l, s, inputs) {
        var j: nat :| j < n && FromInput(l, S.Scans(s, inputs[..n][..j]), inputs[..n][j]);
        assert inputs[..n][..j] == inputs[..j];
        assert FromInput(l, S.Scans(s, inputs[..j]), inputs[j]);
      }
      forall l: Loan | FromInput(l, S.Scans(s, inputs[..n]), inputs[n]) ensures FromRun(l, s, inputs) {}
    }
  }

  // ---------------------------------------------------------------- rows reconciliation closes

  /**
   * How an event closes a row: paid units, hash and time are the event's; it is on time up to a day after the due
   * date, and what was paid above the amount due is a late fee only if it is not.
   */
  predicate ClosesBy(l: Loan, m: Loan, e: ClosedEvent) {
    && m.borrower == l.borrower && m.hasUser == l.hasUser && m.principal == l.principal
    && m.amountDueAtOpen == l.amountDueAtOpen && m.tenorDays == l.tenorDays && m.feeBps == l.feeBps
    && m.startAt == l.startAt && m.dueAt == l.dueAt && m.openTxHash == l.openTxHash
    && m.amountPaid * 10_000_000.0 == e.amountPaid as real
    && m.closeTxHash == Some(e.txHash) && m.closedAt == Some(e.timestamp * 1000) && m.syncedByChain
    && (m.repaidOnTime <==> e.timestamp * 1000 <= l.dueAt + 86_400_000)
    && m.status == (if m.repaidOnTime then RepaidOnTime else RepaidLate)
    && m.lateFeesCollectedUsd * 10_000_000.0
       == if m.repaidOnTime || e.amountPaid as real <= l.amountDueAtOpen * 10_000_000.0 then 0.0
          else e.amountPaid as real - l.amountDueAtOpen * 10_000_000.0
  }

  lemma ClosedByEvent(l: Loan, e: ClosedEvent)
    ensures ClosesBy(l, Closed(l, e), e)
  {
    AmountUnits(e.amountPaid);
    hide Amount;
  }

  /**
   * One attempt on one row, whole: it is closed by the event exactly when one was found, the row has no receipt, no
   * loan of its wallet started after it and by the time of the event, and no other row has the event's hash.
   */
  lemma ReconciledExactly(rows: Table, id: nat, lookup: Lookup)
    ensures var n := Reconciled(rows, id, lookup);
            if && id in rows && rows[id].closeTxHash in {None, Some("")} && lookup.Found?
               && (forall k <- rows :: rows[k].borrower == rows[id].borrower && rows[id].startAt < rows[k].startAt ==>
                     lookup.event.timestamp * 1000 < rows[k].startAt)
               && (forall k <- rows :: k != id ==> rows[k].closeTxHash != Some(lookup.event.txHash))
            then n == rows[id := n[id]] && ClosesBy(rows[id], n[id], lookup.event)
            else n == rows
  {
    if id in rows && lookup.Found? {
      ClosedByEvent(rows[id], lookup.event);
    }
    hide Closed, ClosesBy;
  }

  /** What closes a row closes the row it was before just as well: it overwrites all it depends on. */
  lemma ClosesFromBefore(l: Loan, m: Loan, n: Loan, e: ClosedEvent, f: ClosedEvent)
    requires ClosesBy(l, m, e) && ClosesBy(m, n, f)
    ensures ClosesBy(l, n, f)
  {
  }

  ghost predicate ClosedInRun(l: Loan, m: Loan, id: nat, actions: seq<R.Action>) {
    exists k :: 0 <= k < |actions| && ClosedByAction(l, m, id, actions[k])
  }

  predicate ClosedByAction(l: Loan, m: Loan, id: nat, a: R.Action) {
    a.Reconcile? && a.id == id && a.lookup.Found? && ClosesBy(l, m, a.lookup.event)
  }

  lemma ActCloses(s: Store, a: R.Action, id: nat)
    requires R.StoreOk(s) && id in s.rows
    ensures id in R.Act(s, a).rows
    ensures R.Act(s, a).rows[id] == s.rows[id] || ClosedByAction(s.rows[id], R.Act(s, a).rows[id], id, a)
  {
    match a
    case Reconcile(k, lookup) =>
      ReconciledExactly(s.rows, k, lookup);
    case Scan(head, fetched, users, fails) =>
      var from := s.(cursor := ScanFrom(s.cursor, head));
      if fetched.Some? {
        InsertAllMirrors(from, fetched.value, users, fails);
      }
  }

  /**
   * Over any interleaving of reconciliations and scans, every row either is as it was or was closed by an event that a
   * reconciliation of the run found for it.
   */
  lemma {:induction false} RunsCloseByEvents(s: Store, actions: seq<R.Action>, id: nat)
    requires R.StoreOk(s) && id in s.rows
    ensures id in R.Run(s, actions).rows
    ensures R.Run(s, actions).rows[id] == s.rows[id] || ClosedInRun(s.rows[id], R.Run(s, actions).rows[id], id, actions)
  {
    hide R.StoreOk, R.Act, R.Extends, ClosesBy;
    if actions != [] {
      var n := |actions| - 1;
      RunsCloseByEvents(s, actions[..n], id);
      R.ReceiptsUniqueAndFinal(s, actions[..n]);
      var before := R.Run(s, actions[..n]);
      ActCloses(before, actions[n], id);
      var l, m, after := s.rows[id], before.rows[id], R.Run(s, actions).rows[id];
      if after == m {
        if m != l {
          var k :| 0 <= k < n && ClosedByAction(l, m, id, actions[..n][k]);
          assert ClosedByAction(l, after, id, actions[k]);
        }
      } else {
        if m != l {
          var k :| 0 <= k < n && ClosedByAction(l, m, id, actions[..n][k]);
          ClosesFromBefore(l, m, after, actions[k].lookup.event, actions[n].lookup.event);
        }
        assert ClosedByAction(l, after, id, actions[n]);
      }
    }
  }

  // ---------------------------------------------------------------- a cycle closes what it should

  predicate TakenByOther(rows: Table, id: nat, txHash: string) {
    exists k <- rows :: k != id && rows[k].closeTxHash == Some(txHash)
  }

  /** No other loan of the wallet started after this one and by the time of the event. */
  predicate Owns(rows: Table, id: nat, e: ClosedEvent)
    requires id in rows
  {
    forall k <- rows :: rows[k].borrower == rows[id].borrower && rows[id].startAt < rows[k].startAt ==>
      e.timestamp * 1000 < rows[k].startAt
  }

  lemma TakenStays(rows: Table, id: nat, txHash: string, k: nat, lookup: Lookup)
    requires txHash != "" && TakenByOther(rows, id, txHash)
    ensures TakenByOther(Reconciled(rows, k, lookup), id, txHash)
  {
    var other :| other in rows && other != id && rows[other].closeTxHash == Some(txHash);
    assert Reconciled(rows, k, lookup)[other] == rows[other];
  }

  lemma OwnsStays(rows: Table, id: nat, e: ClosedEvent, k: nat, lookup: Lookup)
    requires id in rows
    ensures Owns(Reconciled(rows, k, lookup), id, e) <==> Owns(rows, id, e)
  {
    var n := Reconciled(rows, k, lookup);
    assert forall j <- rows :: n[j].borrower == rows[j].borrower && n[j].startAt == rows[j].startAt;
  }

  lemma {:induction false} OwnsThroughout(rows: Table, attempts: seq<R.Attempt>, id: nat, e: ClosedEvent)
    requires id in rows
    ensures Owns(R.Attempts(rows, attempts), id, e) <==> Owns(rows, id, e)
  {
    hide Reconciled, Owns;
    if attempts != [] {
      var n := |attempts| - 1;
      OwnsThroughout(rows, attempts[..n], id, e);
      OwnsStays(R.Attempts(rows, attempts[..n]), id, e, attempts[n].id, attempts[n].lookup);
    }
  }

  /** Attempts on a row with the event it owns close it by that event, unless another row has the event's hash. */
  lemma {:induction false} AttemptsSettle(rows: Table, attempts: seq<R.Attempt>, id: nat, e: ClosedEvent)
    requires id in rows && rows[id].closeTxHash == None && e.txHash != "" && Owns(rows, id, e)
    requires forall t <- attempts :: t.id == id ==> t.lookup == Found(e)
    ensures var m := R.Attempts(rows, attempts)[id];
            m == rows[id] || ClosesBy(rows[id], m, e)
    ensures R.Attempt(id, Found(e)) in attempts ==>
              ClosesBy(rows[id], R.Attempts(rows, attempts)[id], e)
              || TakenByOther(R.Attempts(rows, attempts), id, e.txHash)
  {
    hide Reconciled, Owns, TakenByOther;
    if attempts != [] {
      var n := |attempts| - 1;
      AttemptsSettle(rows, attempts[..n], id, e);
      OwnsThroughout(rows, attempts[..n], id, e);
      AttemptSettles(rows[id], R.Attempts(rows, attempts[..n]), attempts[n], id, e);
      assert attempts == attempts[..n] + [attempts[n]];
    }
  }

  lemma AttemptSettles(l: Loan, rows: Table, last: R.Attempt, id: nat, e: ClosedEvent)
    requires id in rows && e.txHash != "" && Owns(rows, id, e) && l.closeTxHash == None
    requires rows[id] == l || ClosesBy(l, rows[id], e)
    requires last.id == id ==> last.lookup == Found(e)
    ensures var n := Reconciled(rows, last.id, last.lookup);
            && (n[id] == l || ClosesBy(l, n[id], e))
            && (last.id == id || ClosesBy(l, rows[id], e) || TakenByOther(rows, id, e.txHash) ==>
                  ClosesBy(l, n[id], e) || TakenByOther(n, id, e.txHash))
  {
    if TakenByOther(rows, id, e.txHash) {
      TakenStays(rows, id, e.txHash, last.id, last.lookup);
    }
    ReconciledExactly(rows, last.id, last.lookup);
    hide Reconciled;
  }

  /**
   * A cycle closes every unsettled row it gets to whose event the gateway finds and the row owns, by that event,
   * exactly unless some other row carries the event's hash afterwards.
   */
  lemma CycleClosesTargets(rows: Table, order: seq<nat>, chain: string -> OnChain, lookup: nat -> Lookup, id: nat)
    requires QueryResult(rows, order) && R.UniqueReceipts(rows) && R.UniqueOpenings(rows)
    requires id in order && R.Attempted(rows, order, chain, lookup, id)
    requires lookup(id).Found? && lookup(id).event.txHash != "" && Owns(rows, id, lookup(id).event)
    ensures var n, e := Cycle(rows, order, chain, lookup), lookup(id).event;
            ClosesBy(rows[id], n[id], e)
            <==> forall k <- n :: k != id ==> n[k].closeTxHash != Some(e.txHash)
  {
    var addr := rows[id].borrower;
    AddressesListed(rows, order, addr);
    assert id in Bucket(rows, order, addr);
    hide R.Attempted, Owns, ClosesBy, Bucket, Addresses, SyncAddresses, R.UniqueReceipts, R.UniqueOpenings;
    var attempts := R.AddressesAreAttempts(rows, order, Addresses(rows, order), chain, lookup);
    AttemptsSettle(rows, attempts, id, lookup(id).event);
    AttemptsUnique(rows, attempts);
    OnlyOneHas(Cycle(rows, order, chain, lookup), id, rows[id], lookup(id).event);
  }

  /**
   * What a cycle passes over stays as it is: rows without a user, all rows of a wallet whose latest has none or whose
   * slot cannot be read, and with the slot inactive all rows of a wallet behind the first whose lookup fails.
   */
  lemma CyclePassesOver(rows: Table, order: seq<nat>, chain: string -> OnChain, lookup: nat -> Lookup, id: nat)
    requires QueryResult(rows, order) && id in order
    requires var bucket := Bucket(rows, order, rows[id].borrower);
             var slot := chain(rows[id].borrower);
             || !rows[id].hasUser || slot.ReadError? || !rows[bucket[0]].hasUser
             || (!slot.active && exists k <- bucket :: && lookup(k).RpcError? && rows[k].hasUser
                                                       && rows[id].startAt < rows[k].startAt)
    ensures Cycle(rows, order, chain, lookup)[id] == rows[id]
  {
    var addr := rows[id].borrower;
    var bucket := Bucket(rows, order, addr);
    R.BucketOrdered(rows, order, addr);
    assert id in bucket;
    var attempts := R.AddressesAreAttempts(rows, order, Addresses(rows, order), chain, lookup);
    hide Bucket, Addresses, SyncAddresses;
    if R.Attempted(rows, order, chain, lookup, id) {
      LaterIsNotReached(rows, bucket, chain(addr), lookup, id);
      assert false;
    }
    R.OnlyNamedRowsChange(rows, attempts, id);
  }

  lemma LaterIsNotReached(rows: Table, bucket: seq<nat>, slot: OnChain, lookup: nat -> Lookup, id: nat)
    requires (forall k <- bucket :: k in rows) && R.LatestFirst(rows, bucket) && id in bucket
    requires || !rows[id].hasUser || slot.ReadError? || !rows[bucket[0]].hasUser
             || (!slot.active && exists k <- bucket :: && lookup(k).RpcError? && rows[k].hasUser
                                                       && rows[id].startAt < rows[k].startAt)
    ensures !R.GotTo(rows, Targets(rows, bucket, slot), lookup, !(slot.Slot? && slot.active), id)
  {
    if slot.Slot? && !slot.active && rows[bucket[0]].hasUser && rows[id].hasUser {
      var k :| k in bucket && lookup(k).RpcError? && rows[k].hasUser && rows[id].startAt < rows[k].startAt;
      var j :| 0 <= j < |bucket| && bucket[j] == k;
      assert Targets(rows, bucket, slot) == bucket;
      forall p | 0 <= p < |bucket| && bucket[p] == id ensures j < p {}
    }
  }

  lemma OnlyOneHas(rows: Table, id: nat, l: Loan, e: ClosedEvent)
    requires R.UniqueReceipts(rows) && id in rows
    ensures ClosesBy(l, rows[id], e) ==> !TakenByOther(rows, id, e.txHash)
  {
  }

  lemma {:induction false} AttemptsUnique(rows: Table, attempts: seq<R.Attempt>)
    requires R.UniqueReceipts(rows) && R.UniqueOpenings(rows)
    ensures R.UniqueReceipts(R.Attempts(rows, attempts)) && R.UniqueOpenings(R.Attempts(rows, attempts))
  {
    hide Reconciled, R.UniqueReceipts, R.UniqueOpenings;
    if attempts != [] {
      var n := |attempts| - 1;
      AttemptsUnique(rows, attempts[..n]);
      R.ReconcileKeeps(R.Attempts(rows, attempts[..n]), attempts[n].id, attempts[n].lookup);
    }
  }

  // ---------------------------------------------------------------- windows and the spared row, in figures

  /** A row matches the chain's active loan when the two starts are at most a minute apart, seconds cut off. */
  lemma MatchesExactly(l: Loan, chain: OnChain)
    ensures MatchesChain(l, chain) <==>
              chain.Slot? && chain.active && (chain.start - 60) * 1000 <= l.startAt < (chain.start + 61) * 1000
  {
  }

  /**
   * A committed scan reads 10,000 blocks, or fewer where the chain ends, from right behind the cursor, or where there
   * is none, from 100,000 blocks back.
   */
  lemma WindowExactly(s: Store, i: S.Input)
    ensures var from := if s.cursor > 0 then s.cursor else if i.head < 100_000 then 0 else i.head - 100_000;
            && (S.Commits(s, i) <==> from < i.head && i.fetched.Some? && i.crashAfter == None)
            && (S.Commits(s, i) ==>
                  S.WindowOf(s, i)
                  == S.Window(from + 1, if i.head < from + 10_000 then i.head else from + 10_000)
                  && S.ScanOnce(s, i).cursor == S.WindowOf(s, i).hi)
  {
  }
}
