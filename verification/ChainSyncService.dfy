/** The service over its table: rows and cursor assigned in place, queries and events supplied by the caller. */
module ChainSyncService {
  import opened Wrappers
  import opened ChainSync

  class Service {
    var loans: Table
    var nextId: nat
    var cursor: nat

    constructor (loans: Table, nextId: nat)
      ensures this.loans == loans && this.nextId == nextId && cursor == 0
    {
      this.loans, this.nextId, cursor := loans, nextId, 0;
    }

    /** The assignments of the transaction, in their order. */
    method AssignReceipt(loan: Loan, event: ClosedEvent) returns (row: Loan)
      ensures row == Closed(loan, event)
    {
      row := loan;
      row := row.(amountPaid := Amount(event.amountPaid));
      row := row.(closeTxHash := Some(event.txHash));
      var closedAt := event.timestamp * 1000;
      row := row.(closedAt := Some(closedAt));
      var repaidOnTime := closedAt <= row.dueAt + REPAID_ON_TIME_GRACE_MS;
      row := row.(repaidOnTime := repaidOnTime);
      row := row.(status := if repaidOnTime then RepaidOnTime else RepaidLate);
      row := row.(syncedByChain := true);
      var closedAfter24hGrace := closedAt - row.dueAt > 24 * 60 * 60 * 1000;
      var paidExtra := row.amountPaid - row.amountDueAtOpen;
      row := row.(lateFeesCollectedUsd :=
        if !repaidOnTime && closedAfter24hGrace && paidExtra > 0.0 then paidExtra else 0.0);
    }

    /** One transaction on one row. `None` is the RPC error that is thrown on; the flag says whether it was updated. */
    method ReconcileLoan(id: nat, lookup: Lookup) returns (updated: Option<bool>)
      modifies this`loans
      ensures loans == Reconciled(old(loans), id, lookup)
      ensures updated == if lookup.RpcError? then None else Some(Reconcilable(old(loans), id, lookup))
    {
      hide Closed;
      if lookup.RpcError? {
        return None;
      }
      if id !in loans {
        return Some(false);
      }
      var row := loans[id];
      if row.closeTxHash.Some? && row.closeTxHash.value != "" {
        return Some(false);
      }
      if lookup.NotFound? {
        return Some(false);
      }
      var event := lookup.event;
      var closer := exists k <- loans ::
        loans[k].borrower == row.borrower && row.startAt + 1 <= loans[k].startAt <= event.timestamp * 1000;
      if closer {
        return Some(false);
      }
      var taken := exists k <- loans :: k != id && loans[k].closeTxHash == Some(event.txHash);
      if taken {
        return Some(false);
      }
      row := AssignReceipt(row, event);
      loans := loans[id := row];
      return Some(true);
    }

    /** One wallet: `bucket` holds its unsettled rows as read at the start of the cycle from `start`. */
    method SyncAddress(start: Table, bucket: seq<nat>, chain: OnChain, lookup: nat -> Lookup)
      requires (forall id <- bucket :: id in start) && loans.Keys == start.Keys
      modifies this`loans
      ensures loans == SyncTargets(old(loans), Targets(start, bucket, chain), lookup, !(chain.Slot? && chain.active))
    {
      hide Reconciled, Reconcilable, MatchesChain;
      if bucket == [] || !start[bucket[0]].hasUser || chain.ReadError? {
        return;
      }
      var targets := bucket;
      if chain.active {
        if MatchesChain(start[bucket[0]], chain) {
          targets := bucket[1..];
        }
      } else {
        InactiveMatchesNothing(start[bucket[0]], chain);
      }
      var i := 0;
      ghost var result := SyncTargets(loans, targets, lookup, !chain.active);
      while i < |targets|
        invariant i <= |targets| && loans.Keys == start.Keys
        invariant SyncTargets(loans, targets[i..], lookup, !chain.active) == result
      {
        var id := targets[i];
        assert targets[i..][1..] == targets[i + 1..];
        if loans[id].hasUser {
          ErrorChangesNothing(loans, id, lookup(id));
          var updated := ReconcileLoan(id, lookup(id));
          if updated == None && !chain.active {
            return;
          }
        }
        i := i + 1;
      }
    }

    /** Groups the query result by wallet, keeping its order. */
    method GroupByAddress(order: seq<nat>) returns (byAddress: map<string, seq<nat>>, addresses: seq<string>)
      requires forall id <- order :: id in loans
      ensures addresses == Addresses(loans, order)
      ensures forall addr <- addresses :: addr in byAddress && byAddress[addr] == Bucket(loans, order, addr)
    {
      byAddress, addresses := map[], [];
      for i := 0 to |order|
        invariant addresses == Addresses(loans, order[..i])
        invariant forall addr :: addr in byAddress <==> addr in addresses
        invariant forall addr <- addresses :: byAddress[addr] == Bucket(loans, order[..i], addr)
      {
        var addr := loans[order[i]].borrower;
        assert order[..i + 1][..i] == order[..i];
        AddressesListed(loans, order[..i], addr);
        if addr in byAddress {
          byAddress := byAddress[addr := byAddress[addr] + [order[i]]];
        } else {
          byAddress := byAddress[addr := [order[i]]];
          addresses := addresses + [addr];
        }
      }
      assert order[..|order|] == order;
    }

    /** One cycle over the unsettled rows; errors of one wallet do not stop the others. */
    method SyncLoansWithChain(order: seq<nat>, chain: string -> OnChain, lookup: nat -> Lookup)
      requires QueryResult(loans, order)
      modifies this`loans
      ensures loans == Cycle(old(loans), order, chain, lookup)
    {
      hide Bucket, Addresses, SyncTargets, Targets;
      ghost var start := loans;
      var snapshot := loans;
      var byAddress, addresses := GroupByAddress(order);
      for i := 0 to |addresses|
        invariant loans.Keys == start.Keys
        invariant loans == SyncAddresses(start, start, order, addresses[..i], chain, lookup)
      {
        assert addresses[..i + 1][..i] == addresses[..i];
        SyncAddress(snapshot, byAddress[addresses[i]], chain(addresses[i]), lookup);
      }
      assert addresses[..|addresses|] == addresses;
    }

    /** Inserts one missing loan; true when a row was added. */
    method InsertMissingLoan(event: OpenedEvent, users: set<string>) returns (inserted: bool)
      modifies this`loans, this`nextId
      ensures Store(cursor, loans, nextId) == Inserted(Store(cursor, old(loans), old(nextId)), event, users)
      ensures inserted <==> !Mirrored(old(loans), event.txHash) && event.borrower in users
      ensures nextId == old(nextId) + if inserted then 1 else 0
    {
      var existing := exists k <- loans :: loans[k].openTxHash == Some(event.txHash);
      if existing {
        return false;
      }
      if event.borrower !in users {
        return false;
      }
      loans := loans[nextId := MissingLoan(event)];
      nextId := nextId + 1;
      return true;
    }

    /** One scan: bootstrap, window, inserts, cursor. The counts are those of the log line. */
    method ScanLoanOpenedEvents(head: nat, fetched: Option<seq<OpenedEvent>>, users: set<string>, fails: nat -> bool)
      returns (inserted: nat, skipped: nat, errors: nat)
      modifies this
      ensures Store(cursor, loans, nextId)
              == Scanned(Store(old(cursor), old(loans), old(nextId)), head, fetched, users, fails)
      ensures fetched.Some? && ScanFrom(old(cursor), head) < head ==> inserted + skipped + errors == |fetched.value|
      ensures nextId == old(nextId) + inserted
    {
      hide Inserted, Mirrored;
      inserted, skipped, errors := 0, 0, 0;
      var fromBlock := cursor;
      if fromBlock == 0 {
        fromBlock := if head < BOOTSTRAP_BLOCKS then 0 else head - BOOTSTRAP_BLOCKS;
        cursor := fromBlock;
      }
      if fromBlock >= head {
        return;
      }
      var toBlock := ScanTo(fromBlock, head);
      if fetched == None {
        return 0, 0, 1;
      }
      var events := fetched.value;
      ghost var before := Store(cursor, loans, nextId);
      for i := 0 to |events|
        invariant cursor == fromBlock
        invariant Store(cursor, loans, nextId) == InsertAll(before, events[..i], users, fails)
        invariant inserted + skipped + errors == i && nextId == old(nextId) + inserted
      {
        assert events[..i + 1][..i] == events[..i];
        if fails(i) {
          errors := errors + 1;
        } else {
          var added := InsertMissingLoan(events[i], users);
          if added { inserted := inserted + 1; } else { skipped := skipped + 1; }
        }
      }
      assert events[..|events|] == events;
      cursor := toBlock;
    }
  }

  lemma InactiveMatchesNothing(l: Loan, chain: OnChain)
    requires chain.Slot? && !chain.active
    ensures !MatchesChain(l, chain)
  {
  }

  lemma ErrorChangesNothing(rows: Table, id: nat, lookup: Lookup)
    ensures lookup.RpcError? ==> Reconciled(rows, id, lookup) == rows
  {
  }
}
