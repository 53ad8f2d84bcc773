/**
 * Runs of reconciliation and of the scanner: receipts are unique and final, closed loans of a wallet do not overlap
 * later ones, the chain's active row is left alone.
 */
module ChainSyncRuns {
  import opened Wrappers
  import opened ChainSync

  // ---------------------------------------------------------------- any interleaving of transactions and scans

  datatype Action =
    | Reconcile(id: nat, lookup: Lookup)
    | Scan(head: nat, fetched: Option<seq<OpenedEvent>>, users: set<string>, fails: nat -> bool)

  function Act(s: Store, a: Action): Store {
    match a
    case Reconcile(id, lookup) => s.(rows := Reconciled(s.rows, id, lookup))
    case Scan(head, fetched, users, fails) => Scanned(s, head, fetched, users, fails)
  }

  function Run(s: Store, actions: seq<Action>): Store {
    if actions == [] then s else Act(Run(s, actions[..|actions| - 1]), actions[|actions| - 1])
  }

  ghost predicate UniqueReceipts(rows: Table) {
    forall i, j :: i in rows && j in rows && i != j && rows[i].closeTxHash.Some? ==>
      rows[i].closeTxHash != rows[j].closeTxHash
  }

  ghost predicate UniqueOpenings(rows: Table) {
    forall i, j :: i in rows && j in rows && i != j && rows[i].openTxHash.Some? ==>
      rows[i].openTxHash != rows[j].openTxHash
  }

  /** What never changes about a row once it is there. */
  predicate SameTerms(l: Loan, m: Loan) {
    && m.borrower == l.borrower && m.hasUser == l.hasUser && m.startAt == l.startAt && m.dueAt == l.dueAt
    && m.principal == l.principal && m.amountDueAtOpen == l.amountDueAtOpen && m.openTxHash == l.openTxHash
  }

  /** Later tables keep every row, its terms, and, once it has a receipt, the whole row. */
  ghost predicate Extends(rows: Table, later: Table) {
    forall i :: i in rows ==>
      i in later && SameTerms(rows[i], later[i]) && (Receipted(rows[i]) ==> later[i] == rows[i])
  }

  ghost predicate StoreOk(s: Store) { IdsOk(s) && UniqueReceipts(s.rows) && UniqueOpenings(s.rows) }

  lemma ReconcileKeeps(rows: Table, id: nat, lookup: Lookup)
    requires UniqueReceipts(rows) && UniqueOpenings(rows)
    ensures var n := Reconciled(rows, id, lookup);
            UniqueReceipts(n) && UniqueOpenings(n) && Extends(rows, n)
  {
  }

  lemma InsertKeeps(s: Store, e: OpenedEvent, users: set<string>)
    requires StoreOk(s)
    ensures StoreOk(Inserted(s, e, users)) && Extends(s.rows, Inserted(s, e, users).rows)
  {
  }

  lemma ExtendsTransitive(a: Table, b: Table, c: Table)
    requires Extends(a, b) && Extends(b, c)
    ensures Extends(a, c)
  {
    hide Receipted;
    forall i | i in a ensures i in c && SameTerms(a[i], c[i]) && (Receipted(a[i]) ==> c[i] == a[i]) {
      assert i in b;
    }
  }

  lemma {:induction false} InsertAllKeeps(s: Store, events: seq<OpenedEvent>, users: set<string>, fails: nat -> bool)
    requires StoreOk(s)
    ensures var n := InsertAll(s, events, users, fails);
            StoreOk(n) && Extends(s.rows, n.rows)
  {
    hide Extends, StoreOk, Inserted;
    if events == [] {
      ExtendsSelf(s.rows);
    } else {
      var most := events[..|events| - 1];
      InsertAllKeeps(s, most, users, fails);
      var before := InsertAll(s, most, users, fails);
      InsertKeeps(before, events[|events| - 1], users);
      if !fails(|events| - 1) {
        ExtendsTransitive(s.rows, before.rows, Inserted(before, events[|events| - 1], users).rows);
      }
    }
  }

  lemma ExtendsSelf(rows: Table)
    ensures Extends(rows, rows)
  {
  }

  lemma ActKeeps(s: Store, a: Action)
    requires StoreOk(s)
    ensures StoreOk(Act(s, a)) && Extends(s.rows, Act(s, a).rows)
  {
    match a
    case Reconcile(id, lookup) => ReconcileKeeps(s.rows, id, lookup);
    case Scan(head, fetched, users, fails) =>
      ExtendsSelf(s.rows);
      if fetched.Some? {
        InsertAllKeeps(s.(cursor := ScanFrom(s.cursor, head)), fetched.value, users, fails);
      }
  }

  /** No two rows ever share a receipt or an opening hash, and a row with a receipt is never written again. */
  lemma {:induction false} ReceiptsUniqueAndFinal(s: Store, actions: seq<Action>)
    requires StoreOk(s)
    ensures StoreOk(Run(s, actions)) && Extends(s.rows, Run(s, actions).rows)
  {
    hide Extends, StoreOk, Act;
    if actions == [] {
      ExtendsSelf(s.rows);
    } else {
      var most := actions[..|actions| - 1];
      ReceiptsUniqueAndFinal(s, most);
      ActKeeps(Run(s, most), actions[|actions| - 1]);
      ExtendsTransitive(s.rows, Run(s, most).rows, Run(s, actions).rows);
    }
  }

  // ---------------------------------------------------------------- closed loans do not reach into later ones

  datatype Attempt = Attempt(id: nat, lookup: Lookup)

  /** Any sequence of reconciliation attempts, with any answers, on a fixed set of rows. */
  function Attempts(rows: Table, attempts: seq<Attempt>): (n: Table)
    ensures n.Keys == rows.Keys
  {
    if attempts == [] then rows
    else
      var last := attempts[|attempts| - 1];
      Reconciled(Attempts(rows, attempts[..|attempts| - 1]), last.id, last.lookup)
  }

  /** A row that has a receipt ended before any later loan of its wallet began, and as its due date says. */
  ghost predicate EndsInOrder(rows: Table, l: Loan) {
    && l.closedAt.Some?
    && (forall b :: b in rows && rows[b].borrower == l.borrower && l.startAt < rows[b].startAt ==>
          l.closedAt.value < rows[b].startAt)
    && (l.status == RepaidOnTime <==> l.closedAt.value <= l.dueAt + REPAID_ON_TIME_GRACE_MS)
    && (l.status == RepaidLate <==> !l.repaidOnTime)
  }

  ghost predicate ClosedInOrder(start: Table, rows: Table) {
    forall a :: a in rows && a in start && !Receipted(start[a]) && Receipted(rows[a]) ==> EndsInOrder(rows, rows[a])
  }

  lemma EndsInOrderStill(rows: Table, id: nat, lookup: Lookup, l: Loan)
    requires EndsInOrder(rows, l)
    ensures EndsInOrder(Reconciled(rows, id, lookup), l)
  {
  }

  lemma ClosingEndsInOrder(rows: Table, id: nat, lookup: Lookup)
    requires Reconcilable(rows, id, lookup)
    ensures EndsInOrder(Reconciled(rows, id, lookup), Closed(rows[id], lookup.event))
  {
    var n := Reconciled(rows, id, lookup);
    forall b | b in n && n[b].borrower == rows[id].borrower && rows[id].startAt < n[b].startAt
      ensures lookup.event.timestamp * 1000 < n[b].startAt
    {
      assert rows[b].startAt == n[b].startAt && rows[b].borrower == n[b].borrower;
    }
  }

  lemma AttemptClosesInOrder(start: Table, rows: Table, id: nat, lookup: Lookup)
    requires start.Keys == rows.Keys && ClosedInOrder(start, rows)
    ensures ClosedInOrder(start, Reconciled(rows, id, lookup))
  {
    hide EndsInOrder, Reconcilable, Closed;
    if Reconcilable(rows, id, lookup) {
      ClosingEndsInOrder(rows, id, lookup);
    }
    forall a | a in rows && EndsInOrder(rows, rows[a]) ensures EndsInOrder(Reconciled(rows, id, lookup), rows[a]) {
      EndsInOrderStill(rows, id, lookup, rows[a]);
    }
  }

  lemma {:induction false} ClosedLoansDoNotOverlap(rows: Table, attempts: seq<Attempt>)
    ensures ClosedInOrder(rows, Attempts(rows, attempts))
  {
    hide ClosedInOrder, Reconciled;
    if attempts == [] {
      NothingClosed(rows);
    } else {
      var most, last := attempts[..|attempts| - 1], attempts[|attempts| - 1];
      ClosedLoansDoNotOverlap(rows, most);
      AttemptClosesInOrder(rows, Attempts(rows, most), last.id, last.lookup);
    }
  }

  lemma NothingClosed(rows: Table)
    ensures ClosedInOrder(rows, rows)
  {
  }

  /** An event is only given to the wallet's latest loan that had started by then, and only if it is not yet spent. */
  lemma EventGoesToItsOwner(rows: Table, id: nat, lookup: Lookup)
    requires id in rows && lookup.Found? && rows[id].startAt <= lookup.event.timestamp * 1000
    ensures Reconcilable(rows, id, lookup) <==>
              && !Receipted(rows[id])
              && (forall b :: b in rows && rows[b].borrower == rows[id].borrower ==>
                    rows[b].startAt <= lookup.event.timestamp * 1000 ==> rows[b].startAt <= rows[id].startAt)
              && (forall b :: b in rows && b != id ==> rows[b].closeTxHash != Some(lookup.event.txHash))
  {
  }

  // ---------------------------------------------------------------- one cycle

  /** Once for each row that is passed to reconciliation: the cycle as attempts. */
  function TargetAttempts(rows: Table, targets: seq<nat>, lookup: nat -> Lookup, errorEnds: bool): (a: seq<Attempt>)
    ensures forall t <- a :: t.id in targets && t.lookup == lookup(t.id)
    decreases |targets|
  {
    if targets == [] then []
    else if targets[0] in rows && !rows[targets[0]].hasUser then TargetAttempts(rows, targets[1..], lookup, errorEnds)
    else if errorEnds && lookup(targets[0]).RpcError? then []
    else [Attempt(targets[0], lookup(targets[0]))]
         + TargetAttempts(Reconciled(rows, targets[0], lookup(targets[0])), targets[1..], lookup, errorEnds)
  }

  lemma {:induction false} AttemptsConcat(rows: Table, first: seq<Attempt>, second: seq<Attempt>)
    ensures Attempts(rows, first + second) == Attempts(Attempts(rows, first), second)
    decreases |second|
  {
    hide Reconciled;
    var all := first + second;
    if second == [] {
      assert all == first;
    } else {
      assert all[..|all| - 1] == first + second[..|second| - 1];
      AttemptsConcat(rows, first, second[..|second| - 1]);
    }
  }

  lemma {:induction false} TargetsAreAttempts(rows: Table, targets: seq<nat>, lookup: nat -> Lookup, errorEnds: bool)
    ensures SyncTargets(rows, targets, lookup, errorEnds)
            == Attempts(rows, TargetAttempts(rows, targets, lookup, errorEnds))
    decreases |targets|
  {
    hide Reconciled;
    if targets == [] {
    } else if targets[0] in rows && !rows[targets[0]].hasUser {
      TargetsAreAttempts(rows, targets[1..], lookup, errorEnds);
    } else if errorEnds && lookup(targets[0]).RpcError? {
    } else {
      var first := [Attempt(targets[0], lookup(targets[0]))];
      var next := Reconciled(rows, targets[0], lookup(targets[0]));
      assert first[..0] == [];
      assert Attempts(rows, first) == next;
      TargetsAreAttempts(next, targets[1..], lookup, errorEnds);
      AttemptsConcat(rows, first, TargetAttempts(next, targets[1..], lookup, errorEnds));
    }
  }

  /** A target with a user that the loop gets to: no lookup up to its own ends the wallet. */
  predicate GotTo(start: Table, targets: seq<nat>, lookup: nat -> Lookup, errorEnds: bool, id: nat)
    requires id in start && forall k <- targets :: k in start
  {
    && start[id].hasUser
    && exists p :: && 0 <= p < |targets| && targets[p] == id
                   && (errorEnds ==> forall q :: 0 <= q <= p && start[targets[q]].hasUser ==>
                                       !lookup(targets[q]).RpcError?)
  }

  lemma GotToNext(start: Table, targets: seq<nat>, lookup: nat -> Lookup, errorEnds: bool, id: nat)
    requires id in start && (forall k <- targets :: k in start) && targets != []
    ensures var passes := !start[targets[0]].hasUser || !errorEnds || !lookup(targets[0]).RpcError?;
            GotTo(start, targets, lookup, errorEnds, id) <==>
              passes && ((targets[0] == id && start[id].hasUser) || GotTo(start, targets[1..], lookup, errorEnds, id))
  {
    var rest := targets[1..];
    if GotTo(start, targets, lookup, errorEnds, id) {
      var p :| && 0 <= p < |targets| && targets[p] == id
               && (errorEnds ==> forall q :: 0 <= q <= p && start[targets[q]].hasUser ==>
                                   !lookup(targets[q]).RpcError?);
      assert start[targets[0]].hasUser && errorEnds ==> !lookup(targets[0]).RpcError?;
      if p > 0 {
        assert rest[p - 1] == id;
        assert forall q :: 0 <= q <= p - 1 ==> rest[q] == targets[q + 1];
      }
    }
    if GotTo(start, rest, lookup, errorEnds, id) {
      var p :| && 0 <= p < |rest| && rest[p] == id
               && (errorEnds ==> forall q :: 0 <= q <= p && start[rest[q]].hasUser ==> !lookup(rest[q]).RpcError?);
      assert targets[p + 1] == id;
      assert forall q :: 1 <= q <= p + 1 ==> targets[q] == rest[q - 1];
    }
  }

  predicate SameUsers(start: Table, rows: Table) {
    rows.Keys == start.Keys && forall k <- start :: rows[k].hasUser == start[k].hasUser
  }

  lemma {:induction false} AttemptedExactly(start: Table, rows: Table, targets: seq<nat>, lookup: nat -> Lookup,
                                            errorEnds: bool, id: nat)
    requires id in start && (forall k <- targets :: k in start) && SameUsers(start, rows)
    ensures Attempt(id, lookup(id)) in TargetAttempts(rows, targets, lookup, errorEnds)
            <==> GotTo(start, targets, lookup, errorEnds, id)
    decreases |targets|
  {
    hide Reconciled, GotTo, SameUsers;
    if targets != [] {
      GotToNext(start, targets, lookup, errorEnds, id);
      SameUser(start, rows, targets[0]);
      var next := Reconciled(rows, targets[0], lookup(targets[0]));
      UsersReconciled(start, rows, targets[0], lookup(targets[0]));
      AttemptedExactly(start, rows, targets[1..], lookup, errorEnds, id);
      AttemptedExactly(start, next, targets[1..], lookup, errorEnds, id);
    } else {
      NobodyLeft(start, lookup, errorEnds, id);
    }
  }

  lemma NobodyLeft(start: Table, lookup: nat -> Lookup, errorEnds: bool, id: nat)
    requires id in start
    ensures !GotTo(start, [], lookup, errorEnds, id)
  {
  }

  lemma SameUser(start: Table, rows: Table, k: nat)
    requires SameUsers(start, rows) && k in start
    ensures k in rows && rows[k].hasUser == start[k].hasUser
  {
  }

  lemma UsersReconciled(start: Table, rows: Table, id: nat, lookup: Lookup)
    requires SameUsers(start, rows)
    ensures SameUsers(start, Reconciled(rows, id, lookup))
  {
  }

  lemma {:induction false} UsersStay(rows: Table, attempts: seq<Attempt>)
    ensures SameUsers(rows, Attempts(rows, attempts))
  {
    hide Reconciled, SameUsers;
    if attempts == [] {
      UsersSelf(rows);
    } else {
      var n := |attempts| - 1;
      UsersStay(rows, attempts[..n]);
      UsersReconciled(rows, Attempts(rows, attempts[..n]), attempts[n].id, attempts[n].lookup);
    }
  }

  lemma UsersSelf(rows: Table)
    ensures SameUsers(rows, rows)
  {
  }

  /** The target of a wallet, by its rows as read at the start, that a cycle passes to reconciliation. */
  predicate Attempted(start: Table, order: seq<nat>, chain: string -> OnChain, lookup: nat -> Lookup, id: nat)
    requires id in start && forall k <- order :: k in start
  {
    var addr := start[id].borrower;
    GotTo(start, Targets(start, Bucket(start, order, addr), chain(addr)), lookup,
          !(chain(addr).Slot? && chain(addr).active), id)
  }

  /** The attempts of a whole cycle: exactly the targets it gets to, in the wallets it visits. */
  lemma {:induction false} AddressesAreAttempts(start: Table, order: seq<nat>, addrs: seq<string>,
                                                chain: string -> OnChain, lookup: nat -> Lookup)
    returns (attempts: seq<Attempt>)
    requires forall id <- order :: id in start
    ensures SyncAddresses(start, start, order, addrs, chain, lookup) == Attempts(start, attempts)
    ensures forall t <- attempts ::
              && t.id in start && t.lookup == lookup(t.id)
              && t.id in Targets(start, Bucket(start, order, start[t.id].borrower), chain(start[t.id].borrower))
              && Attempted(start, order, chain, lookup, t.id)
    ensures forall id <- start :: start[id].borrower in addrs && Attempted(start, order, chain, lookup, id) ==>
              Attempt(id, lookup(id)) in attempts
  {
    hide Reconciled, MatchesChain, GotTo, SameUsers;
    if addrs == [] {
      attempts := [];
    } else {
      var most, addr := addrs[..|addrs| - 1], addrs[|addrs| - 1];
      var before := AddressesAreAttempts(start, order, most, chain, lookup);
      var targets := Targets(start, Bucket(start, order, addr), chain(addr));
      var rows := SyncAddresses(start, start, order, most, chain, lookup);
      var errorEnds := !(chain(addr).Slot? && chain(addr).active);
      TargetsAreAttempts(rows, targets, lookup, errorEnds);
      var mine := TargetAttempts(rows, targets, lookup, errorEnds);
      AttemptsConcat(start, before, mine);
      attempts := before + mine;
      UsersStay(start, before);
      forall id | id in start && start[id].borrower == addr
        ensures Attempt(id, lookup(id)) in mine <==> Attempted(start, order, chain, lookup, id)
      {
        AttemptedExactly(start, rows, targets, lookup, errorEnds, id);
      }
    }
  }

  lemma {:induction false} OnlyNamedRowsChange(rows: Table, attempts: seq<Attempt>, id: nat)
    requires id in rows && forall t <- attempts :: t.id != id
    ensures Attempts(rows, attempts)[id] == rows[id]
  {
    hide Reconcilable, Closed;
    if attempts != [] {
      OnlyNamedRowsChange(rows, attempts[..|attempts| - 1], id);
    }
  }

  /** A cycle keeps the discipline of all runs, for every query result and every answer of chain and gateway. */
  lemma CycleClosesInOrder(rows: Table, order: seq<nat>, chain: string -> OnChain, lookup: nat -> Lookup)
    requires forall id <- order :: id in rows
    ensures ClosedInOrder(rows, Cycle(rows, order, chain, lookup))
  {
    var attempts := AddressesAreAttempts(rows, order, Addresses(rows, order), chain, lookup);
    ClosedLoansDoNotOverlap(rows, attempts);
  }

  /** A cycle writes only targets: unsettled rows other than the latest of a wallet whose active loan it is. */
  lemma OnlyTargetsChange(rows: Table, order: seq<nat>, chain: string -> OnChain, lookup: nat -> Lookup, id: nat)
    requires (forall k <- order :: k in rows) && id in rows
    requires id !in Targets(rows, Bucket(rows, order, rows[id].borrower), chain(rows[id].borrower))
    ensures Cycle(rows, order, chain, lookup)[id] == rows[id]
  {
    hide Targets, SyncAddresses, Bucket;
    var attempts := AddressesAreAttempts(rows, order, Addresses(rows, order), chain, lookup);
    OnlyNamedRowsChange(rows, attempts, id);
  }

  predicate Distinct(ids: seq<nat>) { forall i, j :: 0 <= i < j < |ids| ==> ids[i] != ids[j] }

  predicate LatestFirst(rows: Table, ids: seq<nat>)
    requires forall id <- ids :: id in rows
  {
    forall i, j :: 0 <= i < j < |ids| ==> rows[ids[i]].startAt >= rows[ids[j]].startAt
  }

  lemma OrderedPrefix(rows: Table, ids: seq<nat>)
    requires ids != [] && (forall id <- ids :: id in rows) && Distinct(ids) && LatestFirst(rows, ids)
    ensures Distinct(ids[..|ids| - 1]) && LatestFirst(rows, ids[..|ids| - 1])
    ensures forall id <- ids[..|ids| - 1] :: id != ids[|ids| - 1] && rows[id].startAt >= rows[ids[|ids| - 1]].startAt
  {
  }

  lemma OrderedAppend(rows: Table, ids: seq<nat>, last: nat)
    requires last in rows && (forall id <- ids :: id in rows) && Distinct(ids) && LatestFirst(rows, ids)
    requires forall id <- ids :: id != last && rows[id].startAt >= rows[last].startAt
    ensures Distinct(ids + [last]) && LatestFirst(rows, ids + [last])
  {
  }

  lemma {:induction false} BucketOrdered(rows: Table, order: seq<nat>, addr: string)
    requires (forall id <- order :: id in rows) && Distinct(order) && LatestFirst(rows, order)
    ensures Distinct(Bucket(rows, order, addr)) && LatestFirst(rows, Bucket(rows, order, addr))
  {
    if order != [] {
      hide Distinct, LatestFirst;
      var n := |order| - 1;
      OrderedPrefix(rows, order);
      BucketOrdered(rows, order[..n], addr);
      if rows[order[n]].borrower == addr {
        OrderedAppend(rows, Bucket(rows, order[..n], addr), order[n]);
      } else {
        assert Bucket(rows, order, addr) == Bucket(rows, order[..n], addr);
      }
    }
  }

  /**
   * Of a wallet's unsettled rows exactly one is spared: the latest, when the chain's active loan started within a
   * minute of it. An older row is a target even if it is the one that matches.
   */
  lemma SparedExactly(rows: Table, order: seq<nat>, chain: OnChain, id: nat)
    requires QueryResult(rows, order) && id in order
    ensures var bucket := Bucket(rows, order, rows[id].borrower);
            && bucket != [] && (forall k <- bucket :: rows[k].startAt <= rows[bucket[0]].startAt)
            && (rows[bucket[0]].hasUser && chain.Slot? ==>
                  (id in Targets(rows, bucket, chain) <==> !(id == bucket[0] && MatchesChain(rows[id], chain))))
  {
    hide MatchesChain, Bucket;
    var bucket := Bucket(rows, order, rows[id].borrower);
    BucketOrdered(rows, order, rows[id].borrower);
    assert id in bucket;
    LatestIsFirst(rows, bucket);
    TailOfDistinct(bucket, id);
  }

  lemma LatestIsFirst(rows: Table, bucket: seq<nat>)
    requires bucket != [] && (forall id <- bucket :: id in rows) && LatestFirst(rows, bucket)
    ensures forall k <- bucket :: rows[k].startAt <= rows[bucket[0]].startAt
  {
  }

  lemma TailOfDistinct(bucket: seq<nat>, id: nat)
    requires bucket != [] && Distinct(bucket)
    ensures id in bucket[1..] <==> id in bucket && id != bucket[0]
  {
    assert bucket == [bucket[0]] + bucket[1..];
  }

  /** The row of the loan that is live on chain survives the cycle, whatever events the gateway returns. */
  lemma ActiveRowUntouched(rows: Table, order: seq<nat>, chain: string -> OnChain, lookup: nat -> Lookup, id: nat)
    requires QueryResult(rows, order) && id in order && MatchesChain(rows[id], chain(rows[id].borrower))
    requires forall k <- order :: rows[k].borrower == rows[id].borrower ==>
               k == id || rows[k].startAt < rows[id].startAt
    ensures Cycle(rows, order, chain, lookup)[id] == rows[id]
  {
    hide MatchesChain, Cycle;
    var bucket := Bucket(rows, order, rows[id].borrower);
    SparedExactly(rows, order, chain(rows[id].borrower), id);
    BucketOrdered(rows, order, rows[id].borrower);
    assert bucket[0] == id;
    OnlyTargetsChange(rows, order, chain, lookup, id);
  }
}
