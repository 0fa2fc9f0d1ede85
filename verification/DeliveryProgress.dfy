/**
 Wakeups, the stop latch, and what remains true when tasks are dropped.
 */
module DeliveryProgress {
  import opened Wrappers
  import opened BoundedLog
  import opened LogQueue
  import opened Delivery
  import opened DeliveryTheorems
  import opened DeliveryOrder
  import opened RedactorExamples

  // ------------------------------------------------------------ no lost wakeup

  /** The flag says exactly whether the one timer sleeps. */
  ghost predicate TimerOwned(s: State) {
    && (s.flushScheduled <==> exists t :: At(s, t, Sleeping))
    && forall t, u :: At(s, t, Sleeping) && At(s, u, Sleeping) ==> t == u
  }

  /** A task that will look at the queue again, or schedule a look. */
  predicate Active(s: State, t: nat) {
    t in s.tasks && !s.tasks[t].Sleeping?
  }

  ghost predicate Attended(s: State) {
    s.queue.deliveryStopped.None? && s.queue.pending != [] ==> s.flushScheduled || exists t :: Active(s, t)
  }

  lemma TimerStep(s: State, e: Event, bounds: LogBounds)
    requires TimerOwned(s) && Enabled(s, e, bounds)
    ensures TimerOwned(Next(s, e, bounds))
  {
    hide Accept, Take, Store, Stored, LockFree;
    var next := Next(s, e, bounds);
    if e.Fire? {
      var fired := e.task;
      assert forall u :: At(next, u, Sleeping) ==> At(s, u, Sleeping) && u != fired;
    } else if e.Proceed? && !s.tasks[e.task].flushNow && !s.flushScheduled {
      assert At(next, e.task, Sleeping);
      assert forall u :: At(next, u, Sleeping) && u != e.task ==> At(s, u, Sleeping);
    } else {
      assert forall u :: At(next, u, Sleeping) <==> At(s, u, Sleeping);
    }
  }

  lemma AttendedStep(s: State, e: Event, bounds: LogBounds)
    requires Attended(s) && Enabled(s, e, bounds) && !e.DropTask?
    ensures Attended(Next(s, e, bounds))
  {
    hide BoundLog, BatchSize, Bytes, Store, Stored, LockFree;
    var next := Next(s, e, bounds);
    match e {
      case LogCall(t, log) =>
        if Accept(s.queue, log, bounds).1.Queued? {
          assert Active(next, t);
        } else {
          AcceptLeaves(s.queue, log, bounds);
        }
      case Arrive(_, _) =>
        assert forall u :: Active(s, u) ==> Active(next, u);
      case GiveUp(_, _) =>
      case Check(t) =>
        if t in next.tasks {
          assert Active(next, t);
        }
      case Proceed(t) =>
        if !next.flushScheduled {
          assert Active(next, t);
        }
      case FlushCall(t) => assert Active(next, t);
      case Fire(t) => assert Active(next, t);
      case Acquire(t) => assert Active(next, t);
      case Send(t) => assert Active(next, t);
      case Ack(t) => assert Active(next, t);
      case DropTask(t) =>
    }
  }

  lemma AcceptLeaves(queue: LogState, log: DeploymentLog, bounds: LogBounds)
    ensures !Accept(queue, log, bounds).1.Queued? ==> Accept(queue, log, bounds).0 == queue
  {
  }

  /** At most one timer ever sleeps, and the flag says so, dropped tasks or not. */
  lemma {:induction false} OneTimer(events: seq<Event>, bounds: LogBounds)
    requires Run(events, bounds).Some?
    ensures TimerOwned(Run(events, bounds).value)
  {
    hide Enabled, Next, TimerOwned;
    if events == [] {
      NoTimerYet();
    } else {
      var last := |events| - 1;
      OneTimer(events[..last], bounds);
      TimerStep(Run(events[..last], bounds).value, events[last], bounds);
    }
  }

  lemma NoTimerYet()
    ensures TimerOwned(INITIAL) && Attended(INITIAL)
  {
  }

  /**
   No lost wakeup: while lines are pending and delivery is not stopped, a timer
   sleeps, or some task is still on its way to an empty check of the queue.
   */
  lemma {:induction false} NoLostWakeup(events: seq<Event>, bounds: LogBounds)
    requires Run(events, bounds).Some? && NothingDropped(events)
    ensures var s := Run(events, bounds).value;
            s.queue.deliveryStopped.None? && s.queue.pending != [] ==>
              (exists t :: At(s, t, Sleeping)) || (exists t :: Active(s, t))
  {
    StaysAttended(events, bounds);
    OneTimer(events, bounds);
  }

  lemma {:induction false} StaysAttended(events: seq<Event>, bounds: LogBounds)
    requires Run(events, bounds).Some? && NothingDropped(events)
    ensures Attended(Run(events, bounds).value)
  {
    hide Enabled, Next, Attended;
    if events == [] {
      NoTimerYet();
    } else {
      var last := |events| - 1;
      StaysAttended(events[..last], bounds);
      AttendedStep(Run(events[..last], bounds).value, events[last], bounds);
    }
  }

  /** A task that flushes without waiting for a timer. */
  predicate Flushing(s: State, t: nat) {
    t in s.tasks && !s.tasks[t].Sleeping? && (s.tasks[t].Decided? ==> s.tasks[t].flushNow)
  }

  ghost predicate FullAttended(s: State, bounds: LogBounds) {
    s.queue.deliveryStopped.None? && IsFull(s.queue, bounds) ==> exists t :: Flushing(s, t)
  }

  lemma FullStep(s: State, e: Event, bounds: LogBounds)
    requires FullAttended(s, bounds) && Conserved(s, bounds) && Enabled(s, e, bounds) && !e.DropTask?
    ensures FullAttended(Next(s, e, bounds), bounds)
  {
    hide BoundLog, BatchSize, Bytes, Store, Stored, LockFree, IsFull, Conserved;
    var next := Next(s, e, bounds);
    match e {
      case LogCall(t, log) =>
        AcceptedWhenFull(s.queue, log, bounds, s.accepted) by {
          AccountedNow(s, bounds);
        }
        if Accept(s.queue, log, bounds).1.Queued? {
          assert IsFull(next.queue, bounds) ==> Flushing(next, t);
        } else {
          assert next == s;
        }
      case Arrive(_, _) => assert forall u :: Flushing(s, u) ==> Flushing(next, u);
      case GiveUp(_, _) =>
      case Check(t) =>
        if t in next.tasks {
          assert Flushing(next, t);
        } else {
          NothingPendingIsNotFull(s, bounds);
        }
      case Proceed(t) =>
        if s.tasks[t].flushNow {
          assert Flushing(next, t);
        } else {
          assert forall u :: Flushing(s, u) ==> Flushing(next, u);
        }
      case FlushCall(t) => assert Flushing(next, t);
      case Fire(t) => assert Flushing(next, t);
      case Acquire(t) => assert Flushing(next, t);
      case Send(t) => assert Flushing(next, t);
      case Ack(t) => assert Flushing(next, t);
      case DropTask(t) =>
    }
  }

  lemma AccountedNow(s: State, bounds: LogBounds)
    requires Conserved(s, bounds)
    ensures Accounted(s.queue, bounds, s.accepted)
  {
  }

  lemma AcceptedWhenFull(queue: LogState, log: DeploymentLog, bounds: LogBounds, accepted: seq<DeploymentLog>)
    requires Accounted(queue, bounds, accepted)
    ensures var (next, result) := Accept(queue, log, bounds);
            && (result.Queued? ==> (result.flushNow <==> IsFull(next, bounds)))
            && (!result.Queued? ==> next == queue)
  {
    AcceptAccounts(queue, log, bounds, accepted);
  }

  lemma NothingPendingIsNotFull(s: State, bounds: LogBounds)
    requires Conserved(s, bounds)
    ensures s.queue.pending == [] ==> !IsFull(s.queue, bounds)
  {
  }

  /**
   A full batch is not left to the timer: while one is waiting and delivery is
   not stopped, some task is on its way to flush it.
   */
  lemma {:induction false} FullBatchIsFlushed(events: seq<Event>, bounds: LogBounds)
    requires Run(events, bounds).Some? && NothingDropped(events)
    ensures var s := Run(events, bounds).value;
            s.queue.deliveryStopped.None?
            && (|s.queue.pending| >= BatchMaxLines(bounds) || s.queue.pendingBytes >= MAX_BATCH_BYTES) ==>
              exists t :: Flushing(s, t)
  {
    StaysFullAttended(events, bounds);
  }

  lemma {:induction false} StaysFullAttended(events: seq<Event>, bounds: LogBounds)
    requires Run(events, bounds).Some? && NothingDropped(events)
    ensures FullAttended(Run(events, bounds).value, bounds)
  {
    hide Enabled, Next, FullAttended, LockOwned, Conserved, ServerSound;
    if events == [] {
      NothingFullYet(bounds);
    } else {
      var last := |events| - 1;
      StaysFullAttended(events[..last], bounds);
      Always(events[..last], bounds);
      FullStep(Run(events[..last], bounds).value, events[last], bounds);
    }
  }

  lemma NothingFullYet(bounds: LogBounds)
    ensures FullAttended(INITIAL, bounds)
  {
  }

  // ------------------------------------------------------------ attendance when tasks are dropped

  /** The call accepts a line, or flushes. */
  predicate Attends(s: State, e: Event, bounds: LogBounds) {
    e.FlushCall? || (e.LogCall? && Accept(s.queue, e.log, bounds).1.Queued?)
  }

  /** Whatever was dropped before, such a call leaves somebody to attend to the pending lines. */
  lemma AttendsStep(s: State, e: Event, bounds: LogBounds)
    requires Conserved(s, bounds) && Enabled(s, e, bounds) && Attends(s, e, bounds)
    ensures Attended(Next(s, e, bounds)) && FullAttended(Next(s, e, bounds), bounds)
  {
    hide BoundLog, BatchSize, Bytes, Store, Stored, LockFree, IsFull, Conserved;
    var next := Next(s, e, bounds);
    match e {
      case LogCall(t, log) =>
        AcceptedWhenFull(s.queue, log, bounds, s.accepted) by {
          AccountedNow(s, bounds);
        }
        assert Active(next, t);
        assert IsFull(next.queue, bounds) ==> Flushing(next, t);
      case FlushCall(t) =>
        assert Active(next, t) && Flushing(next, t);
      case _ =>
    }
  }

  /** Only a drop takes the last attendant away. */
  lemma OnlyDropsEndAttendance(events: seq<Event>, e: Event, bounds: LogBounds)
    requires Run(events + [e], bounds).Some?
    ensures Run(events, bounds).Some?
    ensures Attended(Run(events, bounds).value) && !Attended(Run(events + [e], bounds).value) ==> e.DropTask?
    ensures (FullAttended(Run(events, bounds).value, bounds)
             && !FullAttended(Run(events + [e], bounds).value, bounds)) ==> e.DropTask?
  {
    hide Enabled, Next, LockOwned, ServerSound, Conserved, Attended, FullAttended;
    assert (events + [e])[..|events|] == events;
    var s := Run(events, bounds).value;
    Always(events, bounds);
    if !e.DropTask? {
      if Attended(s) {
        AttendedStep(s, e, bounds);
      }
      if FullAttended(s, bounds) {
        FullStep(s, e, bounds);
      }
    }
  }

  /**
   In a run with drops: from the last flush call, or the last call that accepted
   a line, on, and until the next drop, pending lines are attended to, and a full
   batch without waiting for a timer.
   */
  lemma {:induction false} NextCallRestoresAttendance(events: seq<Event>, e: Event, more: seq<Event>, bounds: LogBounds)
    requires Run(events + [e] + more, bounds).Some? && NothingDropped(more)
    ensures Run(events, bounds).Some?
    ensures Attends(Run(events, bounds).value, e, bounds) ==>
              var s := Run(events + [e] + more, bounds).value;
              && (s.queue.deliveryStopped.None? && s.queue.pending != [] ==>
                    (exists t :: At(s, t, Sleeping)) || (exists t :: Active(s, t)))
              && (s.queue.deliveryStopped.None? && IsFull(s.queue, bounds) ==> exists t :: Flushing(s, t))
  {
    RestoredAttendance(events, e, more, bounds);
    OneTimer(events + [e] + more, bounds);
  }

  lemma {:induction false} RestoredAttendance(events: seq<Event>, e: Event, more: seq<Event>, bounds: LogBounds)
    requires Run(events + [e] + more, bounds).Some? && NothingDropped(more)
    ensures Run(events, bounds).Some?
    ensures Attends(Run(events, bounds).value, e, bounds) ==>
              var s := Run(events + [e] + more, bounds).value; Attended(s) && FullAttended(s, bounds)
    decreases |more|
  {
    hide Enabled, Next, LockOwned, ServerSound, Conserved, Attended, FullAttended, Attends;
    var all := events + [e] + more;
    if more == [] {
      assert all[..|all| - 1] == events;
      Always(events, bounds);
      var s := Run(events, bounds).value;
      if Attends(s, e, bounds) {
        AttendsStep(s, e, bounds);
      }
    } else {
      var last := |more| - 1;
      assert all[..|all| - 1] == events + [e] + more[..last];
      RestoredAttendance(events, e, more[..last], bounds);
      OnlyDropsEndAttendance(events + [e] + more[..last], more[last], bounds);
      assert events + [e] + more[..last] + [more[last]] == all;
    }
  }

  // ------------------------------------------------------------ stopped is final

  ghost predicate SameDelivery(s: State, t: State) {
    && t.queue == s.queue && t.accepted == s.accepted && t.issued == s.issued
    && t.sent == s.sent && t.acknowledged == s.acknowledged
  }

  lemma StoppedStep(s: State, e: Event, bounds: LogBounds)
    requires LockOwned(s) && s.queue.deliveryStopped.Some? && Enabled(s, e, bounds)
    ensures SameDelivery(s, Next(s, e, bounds))
  {
    hide BoundLog, Bytes, BatchSize, Store, Stored, LockFree;
    if (e.Send? || e.Ack? || e.GiveUp?) {
      if At(s, e.task, Sending) {
        GiveUpWasRunning(s, e.task);
      }
    }
  }

  /** Once delivery has stopped, nothing is pending, and nothing more is ever accepted, issued, sent or acknowledged. */
  lemma {:induction false} StoppedIsFinal(events: seq<Event>, more: seq<Event>, bounds: LogBounds)
    requires Run(events, bounds).Some? && Run(events, bounds).value.queue.deliveryStopped.Some?
    requires Run(events + more, bounds).Some?
    ensures Run(events, bounds).value.queue.pending == []
    ensures SameDelivery(Run(events, bounds).value, Run(events + more, bounds).value)
  {
    hide Enabled, Next, LockOwned, ServerSound;
    Always(events, bounds);
    if more == [] {
      assert events + more == events;
    } else {
      var last := |more| - 1;
      assert (events + more)[..|events + more| - 1] == events + more[..last];
      StoppedIsFinal(events, more[..last], bounds);
      Always(events + more[..last], bounds);
      hide Conserved;
      StoppedStep(Run(events + more[..last], bounds).value, more[last], bounds);
    }
  }

  // ------------------------------------------------------------ with dropped tasks

  predicate Before(d: Entry, e: Entry) {
    d.key < e.key || (d.key == e.key && d.index < e.index)
  }

  /** Items in the order of the accepted lines. */
  ghost predicate InOrder(server: seq<Entry>) {
    forall i, j :: 0 <= i < j < |server| ==> Before(server[i], server[j])
  }

  /** No item is there without the ones before it in its batch. */
  ghost predicate Gapless(server: seq<Entry>) {
    forall e: Entry, i: nat :: e in server && i < e.index ==> Entry(e.key, i) in server
  }

  ghost predicate NothingLater(server: seq<Entry>, key: nat) {
    forall i :: 0 <= i < |server| ==> server[i].key <= key
  }

  /** An arrival brings nothing new, or nothing of a later batch is there yet. */
  ghost predicate Timely(server: seq<Entry>, key: nat, items: nat) {
    Stored(server, key, items) || NothingLater(server, key)
  }

  ghost predicate AllTimely(events: seq<Event>, bounds: LogBounds) {
    forall i :: 0 <= i < |events| && events[i].Arrive? && Run(events[..i], bounds).Some? ==>
      Timely(Run(events[..i], bounds).value.server, events[i].key, events[i].items)
  }

  lemma {:induction false} StoreKeepsGapless(server: seq<Entry>, key: nat, items: nat)
    requires Gapless(server)
    ensures Gapless(Store(server, key, items))
  {
    hide Gapless;
    if items > 0 {
      StoreKeepsGapless(server, key, items - 1);
      StoreAppends(server, key, items - 1);
      var before := Store(server, key, items - 1);
      AppendKeepsGapless(before, key, items - 1);
    }
  }

  lemma AppendKeepsGapless(server: seq<Entry>, key: nat, index: nat)
    requires Gapless(server) && Stored(server, key, index)
    ensures Gapless(server + [Entry(key, index)])
  {
    var r := server + [Entry(key, index)];
    forall e: Entry, i: nat | e in r && i < e.index ensures Entry(e.key, i) in r {
      if e in server {
        assert Entry(e.key, i) in server;
      } else {
        assert Entry(key, i) in server;
      }
    }
  }

  lemma {:induction false} LastKeyInOrder(server: seq<Entry>, key: nat, items: nat)
    requires InOrder(server) && Gapless(server) && NothingLater(server, key)
    ensures InOrder(Store(server, key, items)) && NothingLater(Store(server, key, items), key)
  {
    hide InOrder, Gapless, NothingLater;
    if items > 0 {
      LastKeyInOrder(server, key, items - 1);
      StoreKeepsGapless(server, key, items - 1);
      var before := Store(server, key, items - 1);
      if Entry(key, items - 1) !in before {
        AppendInOrder(before, key, items - 1);
      }
    }
  }

  lemma AppendInOrder(server: seq<Entry>, key: nat, index: nat)
    requires InOrder(server) && Gapless(server) && NothingLater(server, key)
    requires Entry(key, index) !in server
    ensures InOrder(server + [Entry(key, index)]) && NothingLater(server + [Entry(key, index)], key)
  {
    forall i | 0 <= i < |server| ensures Before(server[i], Entry(key, index)) {
      var d := server[i];
      assert d in server && d != Entry(key, index);
      assert d.key == key && d.index > index ==> Entry(d.key, index) in server;
    }
  }

  /** A timely arrival keeps the order. */
  lemma TimelyKeepsOrder(server: seq<Entry>, key: nat, items: nat)
    requires InOrder(server) && Gapless(server) && Timely(server, key, items)
    ensures InOrder(Store(server, key, items))
  {
    hide InOrder, Gapless;
    if Stored(server, key, items) {
      StoreKnown(server, key, items);
    } else {
      LastKeyInOrder(server, key, items);
    }
  }

  /** Any other arrival breaks it. */
  lemma UntimelyBreaksOrder(server: seq<Entry>, key: nat, items: nat)
    requires !Timely(server, key, items)
    ensures !InOrder(Store(server, key, items))
  {
    StoreAppends(server, key, items);
    var r := Store(server, key, items);
    hide Store;
    var i :| 0 <= i < |server| && server[i].key > key;
    var k: nat :| k < items && Entry(key, k) !in server;
    assert Entry(key, k) in r;
    var j :| 0 <= j < |r| && r[j] == Entry(key, k);
    assert r[i] == server[i];
    forall x | 0 <= x < |server| ensures r[x] != Entry(key, k) {
      assert r[x] == server[x];
    }
    assert !Before(r[i], r[j]);
  }

  /** Once broken, it stays broken. */
  lemma BrokenStaysBroken(server: seq<Entry>, key: nat, items: nat)
    requires !InOrder(server)
    ensures !InOrder(Store(server, key, items))
  {
    StoreAppends(server, key, items);
    var r := Store(server, key, items);
    var i, j :| 0 <= i < j < |server| && !Before(server[i], server[j]);
    assert r[i] == server[i] && r[j] == server[j];
  }

  lemma OrderStep(s: State, e: Event, bounds: LogBounds)
    requires Gapless(s.server) && Enabled(s, e, bounds)
    ensures Gapless(Next(s, e, bounds).server)
    ensures InOrder(Next(s, e, bounds).server)
            <==> InOrder(s.server) && (e.Arrive? ==> Timely(s.server, e.key, e.items))
  {
    hide Store, Accept, Take, Stored, LockFree, InOrder, Gapless, Timely;
    if e.Arrive? {
      StoreKeepsGapless(s.server, e.key, e.items);
      if !InOrder(s.server) {
        BrokenStaysBroken(s.server, e.key, e.items);
      } else if Timely(s.server, e.key, e.items) {
        TimelyKeepsOrder(s.server, e.key, e.items);
      } else {
        UntimelyBreaksOrder(s.server, e.key, e.items);
      }
    }
  }

  /**
   In every run, whatever tasks are dropped and whatever is lost or late: the
   control plane holds each batch without gaps, and it holds the items in the
   order of the accepted lines if and only if every arrival was timely.
   */
  lemma {:induction false} InOrderIffTimely(events: seq<Event>, bounds: LogBounds)
    requires Run(events, bounds).Some?
    ensures Gapless(Run(events, bounds).value.server)
    ensures InOrder(Run(events, bounds).value.server) <==> AllTimely(events, bounds)
  {
    hide Enabled, Next, InOrder, Gapless, Timely, AllTimely;
    if events == [] {
      EmptyInOrder(events, bounds);
    } else {
      var last := |events| - 1;
      var s, e := Run(events[..last], bounds).value, events[last];
      InOrderIffTimely(events[..last], bounds);
      OrderStep(s, e, bounds);
      TimelySoFar(events, bounds);
    }
  }

  lemma EmptyInOrder(events: seq<Event>, bounds: LogBounds)
    requires events == []
    ensures InOrder([]) && Gapless([]) && AllTimely(events, bounds)
  {
  }

  lemma TimelySoFar(events: seq<Event>, bounds: LogBounds)
    requires events != [] && Run(events[..|events| - 1], bounds).Some?
    ensures var last := |events| - 1;
            AllTimely(events, bounds) <==>
              && AllTimely(events[..last], bounds)
              && (events[last].Arrive? ==>
                    Timely(Run(events[..last], bounds).value.server, events[last].key, events[last].items))
  {
    hide Run, Timely;
    var last := |events| - 1;
    var before := events[..last];
    forall i | 0 <= i < last ensures before[..i] == events[..i] && before[i] == events[i] {
    }
    if AllTimely(events, bounds) {
      forall i | 0 <= i < |before| && before[i].Arrive? && Run(before[..i], bounds).Some?
        ensures Timely(Run(before[..i], bounds).value.server, before[i].key, before[i].items)
      {
        assert events[i].Arrive? && Run(events[..i], bounds).Some?;
      }
    }
    if AllTimely(before, bounds) {
      forall i | 0 <= i < last && events[i].Arrive? && Run(events[..i], bounds).Some?
        ensures Timely(Run(events[..i], bounds).value.server, events[i].key, events[i].items)
      {
        assert before[i].Arrive? && Run(before[..i], bounds).Some?;
      }
    }
  }

  /** Whatever is dropped, lost or late: each accepted line is stored at most once, and nothing else is. */
  lemma AtMostOnce(events: seq<Event>, bounds: LogBounds)
    requires Run(events, bounds).Some?
    ensures var s := Run(events, bounds).value;
            && Flatten(s.issued) <= s.accepted
            && Distinct(s.server)
            && (forall i :: 0 <= i < |s.server| ==>
                  s.server[i].key < |s.issued| && s.server[i].index < |s.issued[s.server[i].key]|)
            && (forall i :: 0 <= i < |s.acknowledged| ==>
                  s.acknowledged[i] < |s.issued|
                  && Stored(s.server, s.acknowledged[i], |s.issued[s.acknowledged[i]]|))
  {
    hide Run, LockOwned;
    Always(events, bounds);
  }

  lemma RunGoesOn(events: seq<Event>, e: Event, s: State, bounds: LogBounds)
    requires Run(events, bounds) == Some(s) && Enabled(s, e, bounds)
    ensures Run(events + [e], bounds) == Some(Next(s, e, bounds))
  {
    assert (events + [e])[..|events + [e]| - 1] == events;
  }

  /** The first part of the run below: a task queues the one line it has, takes it, sends it, and is dropped. */
  function SendAndDrop(events: seq<Event>, task: nat, log: DeploymentLog): seq<Event> {
    events + [LogCall(task, log)] + [Proceed(task)] + [Acquire(task)] + [Check(task)] + [Send(task)]
    + [DropTask(task)]
  }

  lemma OneLineIsOneBatch(queue: LogState, log: DeploymentLog, bounds: LogBounds)
    requires queue.deliveryStopped.None? && queue.pending == [] && queue.pendingBytes == 0
    requires bounds.maxBatchLines == Some(1) && BoundLog(log, bounds, queue.bytesSent).Kept?
    ensures var kept := BoundLog(log, bounds, queue.bytesSent).log;
            var (next, result) := Accept(queue, log, bounds);
            && result == Queued(true) && next.pending == [kept]
            && Take(next, 1) == (next.(pending := [], pendingBytes := 0), Batch([kept]))
  {
    hide BoundLog;
    var kept := BoundLog(log, bounds, queue.bytesSent).log;
    assert BatchSize([kept], 1) == 1;
    assert [kept][..1] == [kept] && [kept][1..] == [];
    assert queue.pending + [kept] == [kept];
    BytesOne(kept);
  }

  lemma SendsAndDrops(events: seq<Event>, task: nat, log: DeploymentLog, s: State, bounds: LogBounds)
    requires Run(events, bounds) == Some(s) && s.tasks == map[]
    requires s.queue.deliveryStopped.None? && s.queue.pending == [] && s.queue.pendingBytes == 0
    requires bounds.maxBatchLines == Some(1) && BoundLog(log, bounds, s.queue.bytesSent).Kept?
    ensures var kept := BoundLog(log, bounds, s.queue.bytesSent).log;
            Run(SendAndDrop(events, task, log), bounds)
            == Some(s.(queue := s.queue.(bytesSent := s.queue.bytesSent + |kept.message|),
                       accepted := s.accepted + [kept],
                       issued := s.issued + [[kept]],
                       sent := s.sent + {|s.issued|}))
  {
    hide Run, BoundLog, BatchSize, Bytes, Take;
    OneLineIsOneBatch(s.queue, log, bounds);
    var e1 := events + [LogCall(task, log)];
    RunGoesOn(events, LogCall(task, log), s, bounds);
    var s1 := Next(s, LogCall(task, log), bounds);
    RunGoesOn(e1, Proceed(task), s1, bounds);
    var s2 := Next(s1, Proceed(task), bounds);
    RunGoesOn(e1 + [Proceed(task)], Acquire(task), s2, bounds);
    var s3 := Next(s2, Acquire(task), bounds);
    var e3 := e1 + [Proceed(task)] + [Acquire(task)];
    RunGoesOn(e3, Check(task), s3, bounds);
    var s4 := Next(s3, Check(task), bounds);
    RunGoesOn(e3 + [Check(task)], Send(task), s4, bounds);
    var s5 := Next(s4, Send(task), bounds);
    RunGoesOn(e3 + [Check(task)] + [Send(task)], DropTask(task), s5, bounds);
    assert s5.tasks - {task} == map[];
  }

  /**
   Order does need both conditions: after a drop, a late request stores the
   first accepted line behind the second.
   */
  lemma LateArrivalReorders(a: DeploymentLog, b: DeploymentLog, bounds: LogBounds) returns (events: seq<Event>)
    requires bounds.maxBatchLines == Some(1) && BoundLog(a, bounds, 0).Kept?
    requires BoundLog(b, bounds, |BoundLog(a, bounds, 0).log.message|).Kept?
    ensures var first := BoundLog(a, bounds, 0).log;
            var second := BoundLog(b, bounds, |first.message|).log;
            var run := Run(events, bounds);
            && run.Some? && run.value.accepted == [first, second]
            && run.value.issued == [[first], [second]]
            && run.value.server == [Entry(1, 0), Entry(0, 0)]
  {
    hide Run, BoundLog;
    var first := BoundLog(a, bounds, 0).log;
    var second := BoundLog(b, bounds, |first.message|).log;
    Begins(bounds);
    SendsAndDrops([], 0, a, INITIAL, bounds);
    var once := SendAndDrop([], 0, a);
    var s1 := Run(once, bounds).value;
    SendsAndDrops(once, 1, b, s1, bounds);
    var twice := SendAndDrop(once, 1, b);
    var s2 := Run(twice, bounds).value;
    assert s2.issued == [[first], [second]];
    RunGoesOn(twice, Arrive(1, 1), s2, bounds);
    var s3 := Next(s2, Arrive(1, 1), bounds);
    assert s3.server == [Entry(1, 0)] by {
      assert Store([], 1, 0) == [];
    }
    RunGoesOn(twice + [Arrive(1, 1)], Arrive(0, 1), s3, bounds);
    assert Store(s3.server, 0, 0) == s3.server;
    events := twice + [Arrive(1, 1)] + [Arrive(0, 1)];
  }

  lemma Begins(bounds: LogBounds)
    ensures Run([], bounds) == Some(INITIAL)
  {
  }

  const ONE_LINE_BATCHES := LogBounds(None, Some(1), None)

  function Letter(c: char): DeploymentLog {
    DeploymentLog(Stdout, [c], 0)
  }

  lemma LetterIsKept(c: char, sent: nat)
    requires 'a' <= c <= 'z'
    ensures BoundLog(Letter(c), ONE_LINE_BATCHES, sent) == Kept(Letter(c))
  {
    ShortLineStays([c]);
    assert CollapseBreaks([c]) == [c];
    assert TrailingSpace([c]) == 0;
  }

  /** A concrete case: two accepted lines, `a` and then `b`, stored as `b` and then `a`. */
  lemma TwoLinesReordered() returns (events: seq<Event>)
    ensures var run := Run(events, ONE_LINE_BATCHES);
            && run.Some? && run.value.accepted == [Letter('a'), Letter('b')]
            && run.value.issued == [[Letter('a')], [Letter('b')]]
            && run.value.server == [Entry(1, 0), Entry(0, 0)]
  {
    hide Run, BoundLog;
    LetterIsKept('a', 0);
    LetterIsKept('b', 1);
    events := LateArrivalReorders(Letter('a'), Letter('b'), ONE_LINE_BATCHES);
  }
}
