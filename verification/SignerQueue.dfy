/**
 * The signer's two-lane task queue on a single-threaded event loop: enqueueing, the scheduled dispatch callback and
 * the completion of a task are the atomic steps, and they may come in any order.
 */
module SignerQueue {
  import opened Wrappers

  type Task = nat

  datatype Priority = High | Low

  datatype Start = Start(task: Task, priority: Priority)

  /** `ticks` counts the scheduled dispatch callbacks; `running` holds the tasks started that have not ended. */
  datatype State = State(high: seq<Task>, low: seq<Task>, processing: bool, ticks: nat, running: seq<Task>,
                         started: seq<Start>)

  const EMPTY := State([], [], false, 0, [], [])

  /** Completion names a running task by its place. */
  datatype Event = Enqueue(task: Task, priority: Priority) | Tick | Complete(which: nat)

  predicate Enabled(s: State, e: Event) {
    match e
    case Enqueue(_, _) => true
    case Tick => s.ticks > 0
    case Complete(which) => which < |s.running|
  }

  function Started(s: State, task: Task, priority: Priority): State {
    s.(processing := true, running := s.running + [task], started := s.started + [Start(task, priority)])
  }

  function Dispatched(s: State): State {
    if s.processing then s
    else if s.high != [] then Started(s.(high := s.high[1..]), s.high[0], High)
    else if s.low != [] then Started(s.(low := s.low[1..]), s.low[0], Low)
    else s
  }

  /** An event that is not enabled cannot happen. */
  function Step(s: State, e: Event): State
    requires Enabled(s, e)
  {
    match e
    case Enqueue(task, High) => s.(high := s.high + [task], ticks := s.ticks + 1)
    case Enqueue(task, Low) => s.(low := s.low + [task], ticks := s.ticks + 1)
    case Tick => Dispatched(s.(ticks := s.ticks - 1))
    case Complete(which) =>
      s.(running := s.running[..which] + s.running[which + 1..], processing := false, ticks := s.ticks + 1)
  }

  // ---------------------------------------------------------------- the module-level variables

  class TxQueue {
    var highQueue: seq<Task>
    var lowQueue: seq<Task>
    var processing: bool
    var ticks: nat
    var running: seq<Task>
    var started: seq<Start>

    function Now(): State
      reads this
    {
      State(highQueue, lowQueue, processing, ticks, running, started)
    }

    constructor ()
      ensures Now() == EMPTY
    {
      highQueue, lowQueue, processing, ticks, running, started := [], [], false, 0, [], [];
    }

    method Enqueue(task: Task, priority: Priority)
      modifies this
      ensures Now() == Step(old(Now()), Event.Enqueue(task, priority))
    {
      if priority == High {
        highQueue := highQueue + [task];
      } else {
        lowQueue := lowQueue + [task];
      }
      ticks := ticks + 1;
    }

    method Dispatch()
      modifies this
      ensures Now() == Dispatched(old(Now()))
    {
      if processing {
        return;
      }
      var next: Option<Task> := None;
      var lane := High;
      if highQueue != [] {
        next, highQueue := Some(highQueue[0]), highQueue[1..];
      } else if lowQueue != [] {
        next, lowQueue, lane := Some(lowQueue[0]), lowQueue[1..], Low;
      }
      if next == None {
        return;
      }
      processing := true;
      running := running + [next.value];
      started := started + [Start(next.value, lane)];
    }

    /** The event loop runs one scheduled callback. */
    method RunTick()
      requires ticks > 0
      modifies this
      ensures Now() == Step(old(Now()), Tick)
    {
      ticks := ticks - 1;
      Dispatch();
    }

    /** The `finally` of a task, however it ended. */
    method Complete(which: nat)
      requires which < |running|
      modifies this
      ensures Now() == Step(old(Now()), Event.Complete(which))
    {
      running := running[..which] + running[which + 1..];
      processing := false;
      ticks := ticks + 1;
    }
  }

  // ---------------------------------------------------------------- every interleaving

  /** Events in order, each possible when its turn comes. */
  predicate Possible(events: seq<Event>)
    decreases |events|, 0
  {
    events == [] || (Possible(events[..|events| - 1]) && Enabled(Run(events[..|events| - 1]), events[|events| - 1]))
  }

  function Run(events: seq<Event>): State
    requires Possible(events)
    decreases |events|, 1
  {
    if events == [] then EMPTY else Step(Run(events[..|events| - 1]), events[|events| - 1])
  }

  function Enqueued(events: seq<Event>, lane: Priority): seq<Task> {
    if events == [] then []
    else
      var last := events[|events| - 1];
      Enqueued(events[..|events| - 1], lane) + if last.Enqueue? && last.priority == lane then [last.task] else []
  }

  function StartedIn(started: seq<Start>, lane: Priority): seq<Task> {
    if started == [] then []
    else
      var last := started[|started| - 1];
      StartedIn(started[..|started| - 1], lane) + if last.priority == lane then [last.task] else []
  }

  function Queue(s: State, lane: Priority): seq<Task> { if lane == High then s.high else s.low }

  /** At most one task runs, exactly when `processing` says so; waiting tasks always have someone to wake them. */
  predicate Inv(s: State) {
    && |s.running| == (if s.processing then 1 else 0)
    && (s.high != [] || s.low != [] ==> s.running != [] || s.ticks > 0)
  }

  lemma {:induction false} AtMostOneRunsAndNoLostWakeup(events: seq<Event>)
    requires Possible(events)
    ensures Inv(Run(events))
  {
    if events != [] {
      AtMostOneRunsAndNoLostWakeup(events[..|events| - 1]);
    }
  }

  lemma StartedAppend(started: seq<Start>, one: Start, lane: Priority)
    ensures StartedIn(started + [one], lane)
            == StartedIn(started, lane) + if one.priority == lane then [one.task] else []
  {
    assert (started + [one])[..|started|] == started;
  }

  lemma StepKeepsOrder(s: State, e: Event, lane: Priority)
    requires Enabled(s, e)
    ensures StartedIn(Step(s, e).started, lane) + Queue(Step(s, e), lane)
            == StartedIn(s.started, lane) + Queue(s, lane) + if e.Enqueue? && e.priority == lane then [e.task] else []
  {
    hide StartedIn;
    if e == Tick && !s.processing {
      var one :=
        if s.high != [] then Start(s.high[0], High)
        else if s.low != [] then Start(s.low[0], Low)
        else Start(0, Low);
      StartedAppend(s.started, one, lane);
      assert s.high != [] ==> s.high == [s.high[0]] + s.high[1..];
      assert s.low != [] ==> s.low == [s.low[0]] + s.low[1..];
    }
  }

  /** In each lane, what was started and what waits is what was enqueued: first in first out, once, none lost. */
  lemma {:induction false} LanesAreFifo(events: seq<Event>, lane: Priority)
    requires Possible(events)
    ensures StartedIn(Run(events).started, lane) + Queue(Run(events), lane) == Enqueued(events, lane)
  {
    hide Step, Queue;
    if events == [] {
      assert Queue(EMPTY, lane) == [] by { EmptyQueues(lane); }
    } else {
      var most := events[..|events| - 1];
      LanesAreFifo(most, lane);
      StepKeepsOrder(Run(most), events[|events| - 1], lane);
    }
  }

  lemma EmptyQueues(lane: Priority)
    ensures Queue(EMPTY, lane) == []
  {
  }

  /** Only a callback starts a task: from the head of its lane, with nothing running, and low only behind no high. */
  lemma StartsExactly(events: seq<Event>)
    requires Possible(events) && events != []
    ensures var s, n := Run(events[..|events| - 1]), Run(events);
            n.started != s.started <==>
              events[|events| - 1] == Tick && s.running == [] && (s.high != [] || s.low != [])
    ensures var s, n := Run(events[..|events| - 1]), Run(events);
            n.started != s.started ==>
              && n.started == s.started + [if s.high != [] then Start(s.high[0], High) else Start(s.low[0], Low)]
              && n.running == [n.started[|s.started|].task]
  {
    AtMostOneRunsAndNoLostWakeup(events[..|events| - 1]);
  }

  function Ticked(events: seq<Event>): nat {
    if events == [] then 0 else Ticked(events[..|events| - 1]) + if events[|events| - 1] == Tick then 1 else 0
  }

  function Completed(events: seq<Event>): nat {
    if events == [] then 0 else Completed(events[..|events| - 1]) + if events[|events| - 1].Complete? then 1 else 0
  }

  /** One callback is scheduled for every enqueued and every completed task; a started task runs until it completes. */
  lemma {:induction false} CallbacksExactly(events: seq<Event>)
    requires Possible(events)
    ensures Run(events).ticks + Ticked(events)
            == |Enqueued(events, High)| + |Enqueued(events, Low)| + Completed(events)
    ensures |Run(events).started| == |Run(events).running| + Completed(events)
  {
    if events != [] {
      CallbacksExactly(events[..|events| - 1]);
    }
  }

  // ---------------------------------------------------------------- the queue drains

  /** Callbacks plus two for every task that runs or waits. */
  function Remaining(s: State): nat { s.ticks + 2 * (|s.running| + |s.high| + |s.low|) }

  /** Without new tasks every step uses up exactly one unit, whatever the event loop picks. */
  lemma EveryStepCounts(s: State, e: Event)
    requires Inv(s) && Enabled(s, e) && !e.Enqueue?
    ensures Inv(Step(s, e)) && Remaining(Step(s, e)) < Remaining(s)
    ensures Remaining(Step(s, e)) == Remaining(s) - 1
  {
  }

  /** And as long as units are left some step is possible; with none left nothing waits or runs. */
  lemma DrainsOrMoves(s: State)
    requires Inv(s)
    ensures Remaining(s) == 0 <==> !Enabled(s, Tick) && !Enabled(s, Complete(0))
    ensures Remaining(s) == 0 ==> s.high == [] && s.low == [] && s.running == []
  {
  }

  /** After any run, however the loop goes on without new tasks, it stops after `Remaining` steps, all tasks started. */
  lemma {:induction false} Drains(events: seq<Event>, more: seq<Event>)
    requires Possible(events + more) && Possible(events) && forall e <- more :: !e.Enqueue?
    ensures |more| <= Remaining(Run(events))
    ensures Remaining(Run(events + more)) == Remaining(Run(events)) - |more|
    ensures |more| == Remaining(Run(events)) ==>
              && Run(events + more).running == []
              && (forall lane :: StartedIn(Run(events + more).started, lane) == Enqueued(events, lane))
    decreases |more|
  {
    hide Step;
    var all := events + more;
    if more == [] {
      assert all == events;
    } else {
      assert all[..|all| - 1] == events + more[..|more| - 1];
      Drains(events, more[..|more| - 1]);
      AtMostOneRunsAndNoLostWakeup(all[..|all| - 1]);
      EveryStepCounts(Run(all[..|all| - 1]), all[|all| - 1]);
    }
    AtMostOneRunsAndNoLostWakeup(all);
    DrainsOrMoves(Run(all));
    forall lane | |more| == Remaining(Run(events))
      ensures StartedIn(Run(all).started, lane) == Enqueued(events, lane)
    {
      NothingEnqueued(events, more, lane);
      LanesAreFifo(all, lane);
    }
  }

  lemma {:induction false} NothingEnqueued(events: seq<Event>, more: seq<Event>, lane: Priority)
    requires forall e <- more :: !e.Enqueue?
    ensures Enqueued(events + more, lane) == Enqueued(events, lane)
    decreases |more|
  {
    var all := events + more;
    if more == [] {
      assert all == events;
    } else {
      assert all[..|all| - 1] == events + more[..|more| - 1];
      NothingEnqueued(events, more[..|more| - 1], lane);
    }
  }

  // ---------------------------------------------------------------- retrying a chain write

  datatype Attempt = Done(value: int) | Failed(error: nat)

  /** The value, or the thrown error with the number of attempts reported; `Exhausted` when no attempt was allowed. */
  datatype Outcome = Returned(value: int) | Threw(error: nat, attempts: nat) | Exhausted

  /** `fn(k)` is the outcome of the k-th attempt; the waits in between are returned in order. */
  method WithChainWriteRetry(fn: nat -> Attempt, retryable: nat -> bool, maxAttempts: int, backoff: nat -> nat)
    returns (r: Outcome, waits: seq<nat>)
    ensures maxAttempts < 1 <==> r == Exhausted
    ensures 1 <= maxAttempts ==>
              var k := |waits| + 1;
              && k <= maxAttempts && (fn(k).Done? || !retryable(fn(k).error) || k == maxAttempts)
              && (forall j: nat :: 1 <= j < k ==>
                    fn(j).Failed? && retryable(fn(j).error) && waits[j - 1] == backoff(j))
              && r == if fn(k).Done? then Returned(fn(k).value) else Threw(fn(k).error, k)
  {
    waits := [];
    var attempt: nat := 1;
    while attempt <= maxAttempts
      invariant |waits| == attempt - 1
      invariant 1 <= maxAttempts ==> attempt <= maxAttempts
      invariant forall j: nat :: 1 <= j < attempt ==>
                  fn(j).Failed? && retryable(fn(j).error) && waits[j - 1] == backoff(j)
      decreases maxAttempts - attempt
    {
      var result := fn(attempt);
      if result.Done? {
        return Returned(result.value), waits;
      }
      if attempt == maxAttempts || !retryable(result.error) {
        return Threw(result.error, attempt), waits;
      }
      waits := waits + [backoff(attempt)];
      attempt := attempt + 1;
    }
    return Exhausted, waits;
  }
}
