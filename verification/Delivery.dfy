/**
 Log delivery end to end: the tasks of one reporter
 (crates/sakala-agent-core/src/reporting/runtime.rs) interleaved with a network
 that may lose, repeat and delay requests, and a control plane that
 deduplicates items by idempotency key and index.

 A state changes by one event at a time. The events of the reporter are the
 critical sections of `LogQueue`; everything the environment may do is an
 event too, so a sequence of events is one interleaving.
 */
module Delivery {
  import opened Wrappers
  import opened BoundedLog
  import opened LogQueue

  /**
   Where a task is. `Decided`: a `log` call behind its critical section.
   `Waiting`: in `flush_pending`, without the flush lock. `Holding`: with the
   lock, at the head of the loop. `Sending`: with the lock, its batch on the
   way. `Sleeping`: the spawned timer.
   */
  datatype Pc = Decided(flushNow: bool) | Waiting | Holding | Sending | Sleeping

  /** One item the control plane has stored: the `index`-th line of the request sent under `key`. */
  datatype Entry = Entry(key: nat, index: nat)

  datatype State = State(
    queue: LogState,
    tasks: map<nat, Pc>,
    flushScheduled: bool,
    // Every line ever queued, and every batch ever taken; a batch's position is its idempotency key.
    accepted: seq<DeploymentLog>,
    issued: seq<seq<DeploymentLog>>,
    // Keys under which a request was sent: each may still arrive, any number of times.
    sent: set<nat>,
    // Keys whose batch was reported delivered, in that order.
    acknowledged: seq<nat>,
    server: seq<Entry>)

  const INITIAL := State(EMPTY, map[], false, [], [], {}, [], [])

  datatype Event =
    | LogCall(task: nat, log: DeploymentLog)
    | FlushCall(task: nat)
    | Proceed(task: nat)
    | Fire(task: nat)
    | Acquire(task: nat)
    | Check(task: nat)
    | Send(task: nat)
    | Ack(task: nat)
    | GiveUp(task: nat, reason: string)
    | DropTask(task: nat)
    | Arrive(key: nat, items: nat)

  predicate At(s: State, task: nat, pc: Pc) {
    task in s.tasks && s.tasks[task] == pc
  }

  predicate HasLock(s: State, task: nat) {
    At(s, task, Holding) || At(s, task, Sending)
  }

  predicate LockFree(s: State) {
    forall t :: t in s.tasks ==> !s.tasks[t].Holding? && !s.tasks[t].Sending?
  }

  /** The control plane has stored the whole request. */
  predicate Stored(server: seq<Entry>, key: nat, items: nat) {
    forall i: nat :: i < items ==> Entry(key, i) in server
  }

  /** It works through the items in order and skips the ones it has; a failure may stop it early. */
  function Store(server: seq<Entry>, key: nat, items: nat): (r: seq<Entry>) {
    if items == 0 then server
    else
      var before := Store(server, key, items - 1);
      if Entry(key, items - 1) in before then before else before + [Entry(key, items - 1)]
  }

  predicate Enabled(s: State, e: Event, bounds: LogBounds) {
    match e
    case LogCall(t, _) => t !in s.tasks
    case FlushCall(t) => t !in s.tasks
    case Proceed(t) => t in s.tasks && s.tasks[t].Decided?
    case Fire(t) => At(s, t, Sleeping)
    case Acquire(t) => At(s, t, Waiting) && LockFree(s)
    case Check(t) => At(s, t, Holding)
    case Send(t) => At(s, t, Sending) && s.issued != []
    // An acknowledgement accounts for every item of the batch.
    case Ack(t) => At(s, t, Sending) && s.issued != [] && |s.issued| - 1 in s.sent
                   && Stored(s.server, |s.issued| - 1, |s.issued[|s.issued| - 1]|)
    case GiveUp(t, _) => At(s, t, Sending)
    case DropTask(t) => t in s.tasks && !s.tasks[t].Sleeping?
    case Arrive(key, items) => key in s.sent && key < |s.issued| && items <= |s.issued[key]|
  }

  function Next(s: State, e: Event, bounds: LogBounds): (r: State)
    requires Enabled(s, e, bounds)
  {
    match e
    case LogCall(t, log) =>
      var (queue, result) := Accept(s.queue, log, bounds);
      if result.Queued? && queue.pending != [] then
        s.(queue := queue,
           accepted := s.accepted + [queue.pending[|queue.pending| - 1]],
           tasks := s.tasks[t := Decided(result.flushNow)])
      else s
    case FlushCall(t) => s.(tasks := s.tasks[t := Waiting])
    case Proceed(t) =>
      if s.tasks[t].flushNow then s.(tasks := s.tasks[t := Waiting])
      else if s.flushScheduled then s.(tasks := s.tasks - {t})
      // The call returns; the timer it spawned goes on in its place.
      else s.(flushScheduled := true, tasks := s.tasks[t := Sleeping])
    case Fire(t) => s.(flushScheduled := false, tasks := s.tasks[t := Waiting])
    case Acquire(t) => s.(tasks := s.tasks[t := Holding])
    case Check(t) =>
      var (queue, taken) := Take(s.queue, BatchMaxLines(bounds));
      (match taken
       case Batch(lines) => s.(queue := queue, issued := s.issued + [lines], tasks := s.tasks[t := Sending])
       case _ => s.(tasks := s.tasks - {t}))
    case Send(t) => s.(sent := s.sent + {|s.issued| - 1})
    case Ack(t) => s.(acknowledged := s.acknowledged + [|s.issued| - 1], tasks := s.tasks[t := Holding])
    case GiveUp(t, reason) => s.(queue := Fail(s.queue, reason), tasks := s.tasks - {t})
    case DropTask(t) => s.(tasks := s.tasks - {t})
    case Arrive(key, items) => s.(server := Store(s.server, key, items))
  }

  /** The state after a sequence of events, if each was possible in turn. */
  function Run(events: seq<Event>, bounds: LogBounds): (r: Option<State>) {
    if events == [] then Some(INITIAL)
    else
      var last := |events| - 1;
      match Run(events[..last], bounds)
      case None => None
      case Some(s) => if Enabled(s, events[last], bounds) then Some(Next(s, events[last], bounds)) else None
  }

  /** The lines the control plane holds, in the order it stored them. */
  function Lines(server: seq<Entry>, issued: seq<seq<DeploymentLog>>): (lines: seq<DeploymentLog>)
    requires forall e :: e in server ==> e.key < |issued| && e.index < |issued[e.key]|
  {
    seq(|server|, i requires 0 <= i < |server| =>
      assert server[i] in server; issued[server[i].key][server[i].index])
  }
}
