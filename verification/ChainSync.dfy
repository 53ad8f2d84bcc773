/**
 * Reconciliation of the loans table with close events on chain, and the scanner that inserts missing loans: what one
 * transaction, one address, one cycle and one scan do to the table. Times are in milliseconds unless named otherwise.
 */
module ChainSync {
  import opened Wrappers

  datatype Status = Open | RepaidOnTime | RepaidLate | DefaultedInGrace | Defaulted

  datatype Loan = Loan(
    borrower: string, hasUser: bool, principal: real, amountDueAtOpen: real, amountPaid: real, tenorDays: int,
    feeBps: nat, startAt: int, dueAt: int, closedAt: Option<int>, status: Status, repaidOnTime: bool,
    openTxHash: Option<string>, closeTxHash: Option<string>, syncedByChain: bool, lateFeesCollectedUsd: real)

  type Table = map<nat, Loan>

  const REPAID_ON_TIME_GRACE_MS := 24 * 60 * 60 * 1000
  const LOAN_START_MATCH_TOLERANCE_SEC := 60
  const MAX_BLOCK_RANGE := 10_000
  const BOOTSTRAP_BLOCKS := 100_000

  /** Seven-decimal units as an amount; the rounding of the database column is not modelled. */
  function Amount(units: nat): real { units as real / 10_000_000.0 }

  // ---------------------------------------------------------------- one close event against one row

  /** `timestamp` is in seconds. */
  datatype ClosedEvent = ClosedEvent(amountPaid: nat, txHash: string, timestamp: int)

  datatype Lookup = Found(event: ClosedEvent) | NotFound | RpcError

  predicate Receipted(l: Loan) { l.closeTxHash.Some? && l.closeTxHash.value != "" }

  /** Another loan of the wallet started after this one and no later than the event. */
  predicate CloserLoan(rows: Table, l: Loan, event: ClosedEvent) {
    exists k <- rows :: rows[k].borrower == l.borrower && l.startAt + 1 <= rows[k].startAt <= event.timestamp * 1000
  }

  predicate HashTaken(rows: Table, id: nat, txHash: string) {
    exists k <- rows :: k != id && rows[k].closeTxHash == Some(txHash)
  }

  predicate Reconcilable(rows: Table, id: nat, lookup: Lookup) {
    && id in rows && !Receipted(rows[id]) && lookup.Found?
    && !CloserLoan(rows, rows[id], lookup.event) && !HashTaken(rows, id, lookup.event.txHash)
  }

  function Closed(l: Loan, event: ClosedEvent): Loan {
    var closedAt := event.timestamp * 1000;
    var onTime := closedAt <= l.dueAt + REPAID_ON_TIME_GRACE_MS;
    var paid := Amount(event.amountPaid);
    var extra := paid - l.amountDueAtOpen;
    l.(amountPaid := paid, closeTxHash := Some(event.txHash), closedAt := Some(closedAt), repaidOnTime := onTime,
       status := if onTime then RepaidOnTime else RepaidLate, syncedByChain := true,
       lateFeesCollectedUsd :=
        if !onTime && closedAt - l.dueAt > REPAID_ON_TIME_GRACE_MS && extra > 0.0 then extra else 0.0)
  }

  function Reconciled(rows: Table, id: nat, lookup: Lookup): (n: Table)
    ensures n.Keys == rows.Keys
  {
    if Reconcilable(rows, id, lookup) then rows[id := Closed(rows[id], lookup.event)] else rows
  }

  // ---------------------------------------------------------------- one address

  datatype OnChain = Slot(active: bool, start: int) | ReadError

  function Abs(x: int): nat { if x < 0 then -x else x }

  predicate MatchesChain(l: Loan, chain: OnChain) {
    chain.Slot? && chain.active && Abs(chain.start - l.startAt / 1000) <= LOAN_START_MATCH_TOLERANCE_SEC
  }

  /** The rows of one wallet that will be reconciled, given its unsettled rows, the latest first. */
  function Targets(rows: Table, bucket: seq<nat>, chain: OnChain): (t: seq<nat>)
    requires forall id <- bucket :: id in rows
    ensures forall id <- t :: id in bucket
  {
    if bucket == [] || !rows[bucket[0]].hasUser || chain.ReadError? then []
    else if MatchesChain(rows[bucket[0]], chain) then bucket[1..]
    else bucket
  }

  /** Reconciles the targets in turn. With the slot inactive an RPC error ends the address, otherwise only the row. */
  function SyncTargets(rows: Table, targets: seq<nat>, lookup: nat -> Lookup, errorEnds: bool): (n: Table)
    ensures n.Keys == rows.Keys
    decreases |targets|
  {
    if targets == [] then rows
    else if targets[0] in rows && !rows[targets[0]].hasUser then SyncTargets(rows, targets[1..], lookup, errorEnds)
    else if errorEnds && lookup(targets[0]).RpcError? then rows
    else SyncTargets(Reconciled(rows, targets[0], lookup(targets[0])), targets[1..], lookup, errorEnds)
  }

  // ---------------------------------------------------------------- one cycle

  predicate Unsettled(l: Loan) { l.closeTxHash == None }

  /** What the query returns: every unsettled row once, the latest start first. */
  ghost predicate QueryResult(rows: Table, order: seq<nat>) {
    && (forall id :: id in order <==> id in rows && Unsettled(rows[id]))
    && (forall i, j :: 0 <= i < j < |order| ==>
          order[i] != order[j] && rows[order[i]].startAt >= rows[order[j]].startAt)
  }

  function Bucket(rows: Table, order: seq<nat>, addr: string): (b: seq<nat>)
    requires forall id <- order :: id in rows
    ensures forall id <- b :: id in order && rows[id].borrower == addr
    ensures forall id <- order :: rows[id].borrower == addr ==> id in b
  {
    if order == [] then []
    else
      var n := |order| - 1;
      Bucket(rows, order[..n], addr) + if rows[order[n]].borrower == addr then [order[n]] else []
  }

  /** The wallets of the listed rows, each once, in the order of first appearance. */
  function Addresses(rows: Table, order: seq<nat>): (a: seq<string>)
    requires forall id <- order :: id in rows
    ensures forall i, j :: 0 <= i < j < |a| ==> a[i] != a[j]
  {
    if order == [] then []
    else
      var n := |order| - 1;
      var a := Addresses(rows, order[..n]);
      if rows[order[n]].borrower in a then a else a + [rows[order[n]].borrower]
  }

  lemma {:induction false} AddressesListed(rows: Table, order: seq<nat>, addr: string)
    requires forall id <- order :: id in rows
    ensures addr in Addresses(rows, order) <==> Bucket(rows, order, addr) != []
  {
    if order != [] {
      AddressesListed(rows, order[..|order| - 1], addr);
    }
  }

  /** The wallets one after the other, each from the rows read at the start of the cycle. */
  function SyncAddresses(start: Table, rows: Table, order: seq<nat>, addrs: seq<string>, chain: string -> OnChain,
                         lookup: nat -> Lookup): (n: Table)
    requires forall id <- order :: id in start
    ensures n.Keys == rows.Keys
  {
    if addrs == [] then rows
    else
      var most, addr := addrs[..|addrs| - 1], addrs[|addrs| - 1];
      var targets := Targets(start, Bucket(start, order, addr), chain(addr));
      SyncTargets(SyncAddresses(start, rows, order, most, chain, lookup), targets, lookup,
                  !(chain(addr).Slot? && chain(addr).active))
  }

  function Cycle(rows: Table, order: seq<nat>, chain: string -> OnChain, lookup: nat -> Lookup): (n: Table)
    requires forall id <- order :: id in rows
    ensures n.Keys == rows.Keys
  {
    SyncAddresses(rows, rows, order, Addresses(rows, order), chain, lookup)
  }

  // ---------------------------------------------------------------- the opened-loan scanner

  /** `timestamp` and `due` are in seconds. */
  datatype OpenedEvent = OpenedEvent(
    borrower: string, principal: nat, amountDue: nat, due: int, feeBps: nat, timestamp: int, txHash: string, block: nat)

  predicate Mirrored(rows: Table, txHash: string) { exists k <- rows :: rows[k].openTxHash == Some(txHash) }

  /** `Math.round`: halves go up. */
  function Round(x: int, d: nat): int
    requires d > 0
  {
    (2 * x + d) / (2 * d)
  }

  function MissingLoan(e: OpenedEvent): Loan {
    Loan(e.borrower, true, Amount(e.principal), Amount(e.amountDue), 0.0, Round(e.due - e.timestamp, 86400), e.feeBps,
      e.timestamp * 1000, e.due * 1000, None, Open, false, Some(e.txHash), None, true, 0.0)
  }

  /** Cursor, table, and the next key the database draws. */
  datatype Store = Store(cursor: nat, rows: Table, nextId: nat)

  ghost predicate IdsOk(s: Store) { forall k <- s.rows :: k < s.nextId }

  /** Inserts unless the loan is mirrored already or its wallet has no user. */
  function Inserted(s: Store, e: OpenedEvent, users: set<string>): Store {
    if Mirrored(s.rows, e.txHash) || e.borrower !in users then s
    else s.(rows := s.rows[s.nextId := MissingLoan(e)], nextId := s.nextId + 1)
  }

  /** The events of one window in turn; `fails(i)` says that inserting the i-th one throws. */
  function InsertAll(s: Store, events: seq<OpenedEvent>, users: set<string>, fails: nat -> bool): (n: Store)
    ensures n.cursor == s.cursor
  {
    if events == [] then s
    else
      var n := |events| - 1;
      var before := InsertAll(s, events[..n], users, fails);
      if fails(n) then before else Inserted(before, events[n], users)
  }

  function ScanFrom(cursor: nat, head: nat): nat {
    if cursor == 0 then (if head < BOOTSTRAP_BLOCKS then 0 else head - BOOTSTRAP_BLOCKS) else cursor
  }

  function ScanTo(from: nat, head: nat): (to: nat)
    requires from < head
    ensures from < to <= head && to <= from + MAX_BLOCK_RANGE
  {
    if from + MAX_BLOCK_RANGE < head then from + MAX_BLOCK_RANGE else head
  }

  /** One scan with the chain at block `head`; no events stands for a failed fetch. */
  function Scanned(s: Store, head: nat, fetched: Option<seq<OpenedEvent>>, users: set<string>,
                   fails: nat -> bool): Store
  {
    var from := ScanFrom(s.cursor, head);
    if from >= head || fetched == None then s.(cursor := from)
    else InsertAll(s.(cursor := from), fetched.value, users, fails).(cursor := ScanTo(from, head))
  }
}
