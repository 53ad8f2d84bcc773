/** Runs of the opened-loan scanner: its windows tile the chain, and scanning again changes nothing. */
module ChainSyncScan {
  import opened Wrappers
  import opened ChainSync
  import R = ChainSyncRuns

  /** What one scan meets; `crashAfter` stops it behind that many events, before the cursor is saved. */
  datatype Input = Input(head: nat, fetched: Option<seq<OpenedEvent>>, users: set<string>, fails: nat -> bool,
                         crashAfter: Option<nat>)

  predicate Commits(s: Store, i: Input) {
    ScanFrom(s.cursor, i.head) < i.head && i.fetched.Some? && i.crashAfter == None
  }

  function ScanOnce(s: Store, i: Input): Store {
    var from := ScanFrom(s.cursor, i.head);
    if from < i.head && i.fetched.Some? && i.crashAfter.Some? && i.crashAfter.value <= |i.fetched.value| then
      InsertAll(s.(cursor := from), i.fetched.value[..i.crashAfter.value], i.users, i.fails)
    else if i.crashAfter.Some? then s.(cursor := from)
    else Scanned(s, i.head, i.fetched, i.users, i.fails)
  }

  /** Blocks `lo..hi`, both ends included. */
  datatype Window = Window(lo: nat, hi: nat)

  function WindowOf(s: Store, i: Input): Window
    requires Commits(s, i)
  {
    Window(ScanFrom(s.cursor, i.head) + 1, ScanTo(ScanFrom(s.cursor, i.head), i.head))
  }

  function Scans(s: Store, inputs: seq<Input>): Store {
    if inputs == [] then s else ScanOnce(Scans(s, inputs[..|inputs| - 1]), inputs[|inputs| - 1])
  }

  /** The windows that cursor saves committed, in order. */
  function Windows(s: Store, inputs: seq<Input>): seq<Window> {
    if inputs == [] then []
    else
      var n := |inputs| - 1;
      var before := Scans(s, inputs[..n]);
      Windows(s, inputs[..n]) + if Commits(before, inputs[n]) then [WindowOf(before, inputs[n])] else []
  }

  // ---------------------------------------------------------------- tiling

  /** Windows follow each other without gap or overlap and end at the cursor. */
  predicate Tiling(ws: seq<Window>, cursor: nat) {
    && (forall i :: 0 <= i < |ws| ==> 0 < ws[i].lo <= ws[i].hi < ws[i].lo + MAX_BLOCK_RANGE)
    && (forall i :: 0 <= i < |ws| - 1 ==> ws[i + 1].lo == ws[i].hi + 1)
    && (ws != [] ==> ws[|ws| - 1].hi == cursor)
  }

  lemma OneScan(s: Store, i: Input)
    ensures var n := ScanOnce(s, i);
            && n.cursor >= s.cursor
            && (s.cursor > 0 && !Commits(s, i) ==> n.cursor == s.cursor)
            && (Commits(s, i) ==> n.cursor == WindowOf(s, i).hi && (s.cursor > 0 ==> WindowOf(s, i).lo == s.cursor + 1))
  {
    hide InsertAll;
  }

  /**
   * Over every run, whatever the heads, fetches, failures and crashes: the cursor never moves back, and the committed
   * windows tile the blocks from the first window's start to the cursor. A cursor past genesis starts the first one.
   */
  lemma {:induction false} WindowsTile(s: Store, inputs: seq<Input>)
    ensures Scans(s, inputs).cursor >= s.cursor
    ensures Tiling(Windows(s, inputs), Scans(s, inputs).cursor)
    ensures Windows(s, inputs) != [] && s.cursor > 0 ==> Windows(s, inputs)[0].lo == s.cursor + 1
    ensures Windows(s, inputs) == [] && s.cursor > 0 ==> Scans(s, inputs).cursor == s.cursor
  {
    hide ScanOnce, WindowOf, Commits, Tiling;
    if inputs == [] {
      NoWindows(s.cursor);
    } else {
      var n := |inputs| - 1;
      var before, ws := Scans(s, inputs[..n]), Windows(s, inputs[..n]);
      WindowsTile(s, inputs[..n]);
      OneScan(before, inputs[n]);
      WindowBounds(before, inputs[n]);
      NoWindows(ScanOnce(before, inputs[n]).cursor);
      TilingStarts(ws, before.cursor);
      if Commits(before, inputs[n]) {
        TilingExtends(ws, before.cursor, WindowOf(before, inputs[n]));
      } else {
        assert Windows(s, inputs) == ws;
      }
    }
  }

  lemma NoWindows(cursor: nat)
    ensures Tiling([], cursor)
  {
  }

  lemma TilingStarts(ws: seq<Window>, cursor: nat)
    requires Tiling(ws, cursor)
    ensures ws != [] ==> cursor > 0
  {
  }

  lemma TilingExtends(ws: seq<Window>, cursor: nat, w: Window)
    requires Tiling(ws, cursor) && 0 < w.lo <= w.hi < w.lo + MAX_BLOCK_RANGE && (ws != [] ==> w.lo == cursor + 1)
    ensures Tiling(ws + [w], w.hi)
  {
  }

  lemma WindowBounds(s: Store, i: Input)
    ensures Commits(s, i) ==> 0 < WindowOf(s, i).lo <= WindowOf(s, i).hi < WindowOf(s, i).lo + MAX_BLOCK_RANGE
  {
  }

  /** Where a scanner that starts at genesis jumps to: behind the first head that is far enough out, else genesis. */
  function Bootstrap(inputs: seq<Input>): nat {
    if inputs == [] then 0
    else
      var n := |inputs| - 1;
      if Bootstrap(inputs[..n]) > 0 then Bootstrap(inputs[..n]) else ScanFrom(0, inputs[n].head)
  }

  predicate CommitsAt(s: Store, inputs: seq<Input>, k: nat)
    requires k < |inputs|
  {
    Commits(Scans(s, inputs[..k]), inputs[k])
  }

  lemma {:induction false} BeforeFirstCommit(s: Store, inputs: seq<Input>)
    requires forall k: nat :: k < |inputs| ==> !CommitsAt(s, inputs, k)
    ensures Windows(s, inputs) == []
    ensures Scans(s, inputs).cursor == if s.cursor > 0 then s.cursor else Bootstrap(inputs)
  {
    hide InsertAll;
    if inputs != [] {
      var n := |inputs| - 1;
      forall k: nat | k < n ensures !CommitsAt(s, inputs[..n], k) {
        assert inputs[..n][..k] == inputs[..k];
        assert !CommitsAt(s, inputs, k);
      }
      BeforeFirstCommit(s, inputs[..n]);
      assert !CommitsAt(s, inputs, n);
    }
  }

  lemma {:induction false} WindowsGrow(s: Store, inputs: seq<Input>, k: nat)
    requires k <= |inputs|
    ensures Windows(s, inputs[..k]) <= Windows(s, inputs)
  {
    hide Commits, WindowOf, Scans;
    var n := |inputs| - 1;
    if k == |inputs| {
      assert inputs[..k] == inputs;
    } else {
      WindowsGrow(s, inputs[..n], k);
      assert inputs[..n][..k] == inputs[..k];
    }
  }

  /** The first window starts right behind the cursor, or, from genesis, right behind the bootstrap block. */
  lemma FirstWindow(s: Store, inputs: seq<Input>, k: nat)
    requires k < |inputs| && CommitsAt(s, inputs, k) && forall m: nat :: m < k ==> !CommitsAt(s, inputs, m)
    ensures Windows(s, inputs) != []
    ensures Windows(s, inputs)[0].lo == 1 + if s.cursor > 0 then s.cursor else Bootstrap(inputs[..k + 1])
  {
    hide InsertAll, Scans;
    forall m: nat | m < k ensures !CommitsAt(s, inputs[..k], m) {
      assert inputs[..k][..m] == inputs[..m];
      assert !CommitsAt(s, inputs, m);
    }
    BeforeFirstCommit(s, inputs[..k]);
    assert inputs[..k + 1][..k] == inputs[..k];
    assert Windows(s, inputs[..k + 1]) == [WindowOf(Scans(s, inputs[..k]), inputs[k])];
    WindowsGrow(s, inputs, k + 1);
  }

  /** A tiling covers every block from its start to the cursor exactly once. */
  lemma {:induction false} CoveredExactlyOnce(ws: seq<Window>, cursor: nat, block: nat)
    requires Tiling(ws, cursor) && ws != [] && ws[0].lo <= block <= cursor
    ensures exists i :: 0 <= i < |ws| && ws[i].lo <= block <= ws[i].hi
    ensures forall i, j :: 0 <= i < j < |ws| ==> ws[i].hi < ws[j].lo
  {
    var n := |ws| - 1;
    if n > 0 {
      var shorter := ws[..n];
      assert ws[n - 1 + 1].lo == ws[n - 1].hi + 1;
      assert Tiling(shorter, ws[n - 1].hi);
      LoBeforeHi(shorter, ws[n - 1].hi);
      if block <= ws[n - 1].hi {
        CoveredExactlyOnce(shorter, ws[n - 1].hi, block);
        var i :| 0 <= i < n && shorter[i].lo <= block <= shorter[i].hi;
        assert ws[i].lo <= block <= ws[i].hi;
      } else {
        CoveredExactlyOnce(shorter, ws[n - 1].hi, ws[0].lo);
      }
      forall i, j | 0 <= i < j < |ws| ensures ws[i].hi < ws[j].lo {
        if j < n {
          assert shorter[i].hi < shorter[j].lo;
        } else if i < n - 1 {
          assert shorter[i].hi < shorter[n - 1].lo;
        }
      }
    }
  }

  lemma {:induction false} LoBeforeHi(ws: seq<Window>, cursor: nat)
    requires Tiling(ws, cursor) && ws != []
    ensures ws[0].lo <= cursor
  {
    var n := |ws| - 1;
    if n > 0 {
      assert ws[n - 1 + 1].lo == ws[n - 1].hi + 1;
      LoBeforeHi(ws[..n], ws[n - 1].hi);
    }
  }

  // ---------------------------------------------------------------- what a window leaves in the table

  /** The row an event would add is there, or cannot be added. */
  predicate Settled(rows: Table, e: OpenedEvent, users: set<string>) {
    Mirrored(rows, e.txHash) || e.borrower !in users
  }

  lemma {:induction false} SettledStays(s: Store, events: seq<OpenedEvent>, users: set<string>, fails: nat -> bool)
    requires forall e <- events :: Settled(s.rows, e, users)
    ensures InsertAll(s, events, users, fails) == s
  {
    if events != [] {
      SettledStays(s, events[..|events| - 1], users, fails);
      assert Settled(s.rows, events[|events| - 1], users);
    }
  }

  lemma InsertMirrors(s: Store, e: OpenedEvent, users: set<string>, hash: string)
    requires IdsOk(s)
    ensures IdsOk(Inserted(s, e, users))
    ensures Mirrored(Inserted(s, e, users).rows, hash)
            <==> Mirrored(s.rows, hash) || (hash == e.txHash && e.borrower in users)
  {
    var n := Inserted(s, e, users);
    if n != s {
      assert n.rows[s.nextId].openTxHash == Some(e.txHash);
      forall k | k in s.rows ensures n.rows[k] == s.rows[k] {}
    }
  }

  /** A hash is mirrored after a window exactly when it was before, or an event with it has a user and does not fail. */
  lemma {:induction false} WindowMirrorsExactly(s: Store, events: seq<OpenedEvent>, users: set<string>,
                                                fails: nat -> bool, hash: string)
    requires IdsOk(s)
    ensures IdsOk(InsertAll(s, events, users, fails))
    ensures Mirrored(InsertAll(s, events, users, fails).rows, hash)
            <==> Mirrored(s.rows, hash)
                 || exists i :: && 0 <= i < |events| && events[i].txHash == hash
                                && events[i].borrower in users && !fails(i)
  {
    hide Inserted, Mirrored;
    if events != [] {
      var n := |events| - 1;
      WindowMirrorsExactly(s, events[..n], users, fails, hash);
      InsertMirrors(InsertAll(s, events[..n], users, fails), events[n], users, hash);
      assert forall i :: 0 <= i < n ==> events[..n][i] == events[i];
    }
  }

  /** Scanning a window again after a failure completes it; once complete, scanning it again changes nothing at all. */
  lemma RescanIsIdempotent(s: Store, events: seq<OpenedEvent>, users: set<string>, fails: nat -> bool,
                           again: nat -> bool)
    requires R.StoreOk(s)
    ensures var partial := InsertAll(s, events, users, fails);
            var complete := InsertAll(partial, events, users, _ => false);
            && R.StoreOk(complete) && R.Extends(partial.rows, complete.rows)
            && (forall e <- events :: Settled(complete.rows, e, users))
            && InsertAll(complete, events, users, again) == complete
  {
    hide InsertAll, Mirrored, R.Extends, R.UniqueOpenings, R.UniqueReceipts;
    var partial := InsertAll(s, events, users, fails);
    R.InsertAllKeeps(s, events, users, fails);
    var never := _ => false;
    R.InsertAllKeeps(partial, events, users, never);
    var complete := InsertAll(partial, events, users, never);
    forall e | e in events ensures Settled(complete.rows, e, users) {
      WindowMirrorsExactly(partial, events, users, never, e.txHash);
    }
    SettledStays(complete, events, users, again);
  }

  // ---------------------------------------------------------------- a failed insert is not retried

  /** The gateway returns events of the asked blocks only, and a hash belongs to one block. */
  predicate Honest(s: Store, i: Input, hash: string, block: nat) {
    i.fetched.Some? ==>
      forall e <- i.fetched.value ::
        ScanFrom(s.cursor, i.head) < e.block <= i.head && (e.txHash == hash ==> e.block == block)
  }

  ghost predicate HonestRun(s: Store, inputs: seq<Input>, hash: string, block: nat) {
    forall k :: 0 <= k < |inputs| ==> Honest(Scans(s, inputs[..k]), inputs[k], hash, block)
  }

  lemma ScanOnceMissesPast(s: Store, i: Input, hash: string, block: nat)
    requires IdsOk(s) && Honest(s, i, hash, block) && 0 < block <= s.cursor
    ensures IdsOk(ScanOnce(s, i))
    ensures Mirrored(ScanOnce(s, i).rows, hash) <==> Mirrored(s.rows, hash)
  {
    hide Mirrored, InsertAll, Inserted;
    if i.fetched.Some? {
      var from := s.(cursor := ScanFrom(s.cursor, i.head));
      WindowMirrorsExactly(from, i.fetched.value, i.users, i.fails, hash);
      if i.crashAfter.Some? && i.crashAfter.value <= |i.fetched.value| {
        WindowMirrorsExactly(from, i.fetched.value[..i.crashAfter.value], i.users, i.fails, hash);
      }
    }
  }

  /**
   * Once the cursor has passed a block, later scans neither add nor miss its loans: an insert that failed inside a
   * committed window is never retried by the scanner.
   */
  lemma {:induction false} PassedBlocksAreFinal(s: Store, inputs: seq<Input>, hash: string, block: nat)
    requires IdsOk(s) && 0 < block <= s.cursor && HonestRun(s, inputs, hash, block)
    ensures IdsOk(Scans(s, inputs))
    ensures Mirrored(Scans(s, inputs).rows, hash) <==> Mirrored(s.rows, hash)
  {
    hide Mirrored, ScanOnce, Honest;
    if inputs != [] {
      var n := |inputs| - 1;
      forall k | 0 <= k < n ensures Honest(Scans(s, inputs[..n][..k]), inputs[..n][k], hash, block) {
        assert inputs[..n][..k] == inputs[..k];
      }
      PassedBlocksAreFinal(s, inputs[..n], hash, block);
      WindowsTile(s, inputs[..n]);
      assert Honest(Scans(s, inputs[..n]), inputs[n], hash, block);
      ScanOnceMissesPast(Scans(s, inputs[..n]), inputs[n], hash, block);
    }
  }

  // ---------------------------------------------------------------- which loans a run mirrors

  /** The events a scan gets to: all it fetched, or those before it crashed. */
  function Processed(s: Store, i: Input): seq<OpenedEvent> {
    if ScanFrom(s.cursor, i.head) >= i.head || i.fetched == None then []
    else if i.crashAfter == None then i.fetched.value
    else if i.crashAfter.value <= |i.fetched.value| then i.fetched.value[..i.crashAfter.value]
    else []
  }

  /** The scan inserts a loan with this hash or finds it there: a wallet with a user, an insert that does not fail. */
  predicate Adds(s: Store, i: Input, hash: string) {
    exists k | 0 <= k < |Processed(s, i)| ::
      Processed(s, i)[k].txHash == hash && Processed(s, i)[k].borrower in i.users && !i.fails(k)
  }

  lemma ScanMirrorsExactly(s: Store, i: Input, hash: string)
    requires IdsOk(s)
    ensures IdsOk(ScanOnce(s, i))
    ensures Mirrored(ScanOnce(s, i).rows, hash) <==> Mirrored(s.rows, hash) || Adds(s, i, hash)
  {
    hide Mirrored, Inserted;
    var from := s.(cursor := ScanFrom(s.cursor, i.head));
    WindowMirrorsExactly(from, Processed(s, i), i.users, i.fails, hash);
    hide InsertAll;
    NothingInserted(from, i.users, i.fails);
  }

  lemma NothingInserted(s: Store, users: set<string>, fails: nat -> bool)
    ensures InsertAll(s, [], users, fails) == s
  {
  }

  lemma FailedInsert(s: Store, e: OpenedEvent, users: set<string>, fails: nat -> bool)
    requires fails(0)
    ensures InsertAll(s, [e], users, fails) == s
  {
    assert [e][..0] == [];
    NothingInserted(s, users, fails);
  }

  ghost predicate AddedIn(s: Store, inputs: seq<Input>, hash: string) {
    exists k: nat :: k < |inputs| && Adds(Scans(s, inputs[..k]), inputs[k], hash)
  }

  lemma AddedInMore(s: Store, inputs: seq<Input>, hash: string)
    requires inputs != []
    ensures var n := |inputs| - 1;
            AddedIn(s, inputs, hash) <==> AddedIn(s, inputs[..n], hash) || Adds(Scans(s, inputs[..n]), inputs[n], hash)
  {
    hide Adds, Scans;
    var n := |inputs| - 1;
    assert forall k: nat :: k <= n ==> inputs[..n][..k] == inputs[..k];
    if k: nat :| k < |inputs| && Adds(Scans(s, inputs[..k]), inputs[k], hash) {
      if k < n {
        assert Adds(Scans(s, inputs[..n][..k]), inputs[..n][k], hash);
      }
    }
    if k: nat :| k < n && Adds(Scans(s, inputs[..n][..k]), inputs[..n][k], hash) {
      assert Adds(Scans(s, inputs[..k]), inputs[k], hash);
    }
  }

  /** After any run a loan is mirrored exactly when it was before, or a scan of the run got to it and could add it. */
  lemma {:induction false} RunMirrorsExactly(s: Store, inputs: seq<Input>, hash: string)
    requires IdsOk(s)
    ensures IdsOk(Scans(s, inputs))
    ensures Mirrored(Scans(s, inputs).rows, hash) <==> Mirrored(s.rows, hash) || AddedIn(s, inputs, hash)
  {
    hide Mirrored, ScanOnce, Adds;
    if inputs != [] {
      var n := |inputs| - 1;
      RunMirrorsExactly(s, inputs[..n], hash);
      AddedInMore(s, inputs, hash);
      ScanMirrorsExactly(Scans(s, inputs[..n]), inputs[n], hash);
    }
  }

  lemma {:induction false} ScansSplit(s: Store, first: seq<Input>, second: seq<Input>)
    ensures Scans(s, first + second) == Scans(Scans(s, first), second)
    decreases |second|
  {
    hide ScanOnce;
    var all := first + second;
    if second == [] {
      assert all == first;
    } else {
      var n := |second| - 1;
      assert all[..|all| - 1] == first + second[..n];
      ScansSplit(s, first, second[..n]);
    }
  }

  /**
   * For good: once the cursor has passed a loan's block, with a gateway that answers what it is asked, the loan is
   * mirrored after all further scans exactly when it was at the start or a scan up to then could add it. One that
   * failed in its window is lost to the scanner.
   */
  lemma MirroredForGoodExactly(s: Store, inputs: seq<Input>, more: seq<Input>, hash: string, block: nat)
    requires IdsOk(s) && 0 < block <= Scans(s, inputs).cursor && HonestRun(Scans(s, inputs), more, hash, block)
    ensures Mirrored(Scans(s, inputs + more).rows, hash) <==> Mirrored(s.rows, hash) || AddedIn(s, inputs, hash)
  {
    hide Mirrored, ScanOnce, AddedIn, HonestRun, Scans;
    RunMirrorsExactly(s, inputs, hash);
    PassedBlocksAreFinal(Scans(s, inputs), more, hash, block);
    ScansSplit(s, inputs, more);
  }

  const LOST := OpenedEvent("wallet", 1, 1, 86400, 1, 0, "hash", 6)

  /** A run that loses a loan: its one insert fails, and the next scan asks for later blocks only. */
  lemma LoanCanBeLost()
    ensures var s := Store(5, map[], 0);
            var failing := Input(10, Some([LOST]), {"wallet"}, _ => true, None);
            var next := Input(20, Some([]), {"wallet"}, _ => false, None);
            && Honest(s, failing, "hash", 6) && Honest(Scans(s, [failing]), next, "hash", 6)
            && Scans(s, [failing, next]).cursor == 20
            && !Mirrored(Scans(s, [failing, next]).rows, "hash")
  {
    var s := Store(5, map[], 0);
    var failing := Input(10, Some([LOST]), {"wallet"}, _ => true, None);
    var next := Input(20, Some([]), {"wallet"}, _ => false, None);
    assert [failing][..0] == [] && [failing, next][..1] == [failing];
    var after := s.(cursor := 10);
    assert ScanOnce(s, failing) == after by {
      FailedInsert(s, LOST, failing.users, failing.fails);
    }
    NothingInserted(after, next.users, next.fails);
    assert Scans(s, []) == s;
    assert Scans(s, [failing]) == after;
  }
}
