/**
 Delivery comes to an end: whoever holds the flush lock gives it back, and from
 every reachable state of a run without drops everything that was accepted can
 still be delivered.
 */
module DeliveryDrains {
  import opened Wrappers
  import opened BoundedLog
  import opened LogQueue
  import opened Delivery
  import opened DeliveryTheorems
  import opened DeliveryOrder
  import opened DeliveryProgress

  // ------------------------------------------------------------ the loop ends

  lemma OnlyHolder(s: State, t: nat, next: State)
    requires LockOwned(s) && HasLock(s, t)
    requires next.tasks == s.tasks - {t}
    ensures t !in next.tasks && LockFree(next)
  {
    forall u | u in next.tasks ensures !next.tasks[u].Holding? && !next.tasks[u].Sending? {
      assert u in s.tasks && next.tasks[u] == s.tasks[u];
      assert HasLock(s, u) ==> u == t;
    }
  }

  /** With nothing to deliver, or delivery stopped, the task leaves, and the lock is free. */
  lemma LoopEnds(events: seq<Event>, t: nat, bounds: LogBounds)
    requires Run(events + [Check(t)], bounds).Some?
    ensures Run(events, bounds).Some?
    ensures var s, next := Run(events, bounds).value, Run(events + [Check(t)], bounds).value;
            if s.queue.deliveryStopped.Some? || s.queue.pending == [] then
              && t !in next.tasks && LockFree(next)
              && next == s.(tasks := next.tasks)
              && (forall u :: u != t ==> (u in next.tasks <==> u in s.tasks))
              && (forall u :: u in next.tasks ==> next.tasks[u] == s.tasks[u])
            else
              && next.tasks == s.tasks[t := Sending]
              && next.issued == s.issued + [next.issued[|s.issued|]]
              && next.issued[|s.issued|] + next.queue.pending == s.queue.pending
              && next.issued[|s.issued|] != []
  {
    assert (events + [Check(t)])[..|events|] == events;
    Always(events, bounds);
    var s := Run(events, bounds).value;
    hide Run, LockOwned, ServerSound, BatchSize, Bytes;
    TakeAccounts(s.queue, bounds, s.accepted, BatchMaxLines(bounds));
    if s.queue.deliveryStopped.Some? || s.queue.pending == [] {
      OnlyHolder(s, t, Next(s, Check(t), bounds));
    }
  }

  /** A failed delivery stops the reporter, and the lock is free. */
  lemma FailureEndsLoop(events: seq<Event>, t: nat, reason: string, bounds: LogBounds)
    requires Run(events + [GiveUp(t, reason)], bounds).Some?
    ensures var next := Run(events + [GiveUp(t, reason)], bounds).value;
            && t !in next.tasks && LockFree(next)
            && next.queue.deliveryStopped == Some(reason) && next.queue.pending == []
  {
    assert (events + [GiveUp(t, reason)])[..|events|] == events;
    Always(events, bounds);
    var s := Run(events, bounds).value;
    hide Run, LockOwned, ServerSound, Conserved;
    OnlyHolder(s, t, Next(s, GiveUp(t, reason), bounds));
  }

  // ------------------------------------------------------------ the lock comes back

  /** What the task does itself while it holds the lock, or a request of it arriving. */
  predicate IsOwn(e: Event, t: nat) {
    e == Check(t) || e == Send(t) || e == Ack(t) || e.Arrive?
  }

  predicate AllOwn(events: seq<Event>, t: nat) {
    forall i :: 0 <= i < |events| ==> IsOwn(events[i], t)
  }

  lemma OneMore(events: seq<Event>, before: seq<Event>, e: Event, s: State, bounds: LogBounds)
      returns (more: seq<Event>)
    requires Run(events + before, bounds) == Some(s) && Enabled(s, e, bounds)
    ensures more == before + [e]
    ensures Run(events + more, bounds) == Some(Next(s, e, bounds))
  {
    hide Run, Enabled, Next;
    more := before + [e];
    assert events + more == events + before + [e];
    RunGoesOn(events + before, e, s, bounds);
  }

  lemma AckStep(s: State, t: nat, bounds: LogBounds)
    requires At(s, t, Sending) && s.issued != []
    ensures Enabled(s, Send(t), bounds)
    ensures var k := |s.issued| - 1;
            var sent := Next(s, Send(t), bounds);
            && sent == s.(sent := s.sent + {k})
            && Enabled(sent, Arrive(k, |s.issued[k]|), bounds)
            && var arrived := Next(sent, Arrive(k, |s.issued[k]|), bounds);
               && arrived == sent.(server := Store(s.server, k, |s.issued[k]|))
               && Enabled(arrived, Ack(t), bounds)
               && Next(arrived, Ack(t), bounds)
                  == arrived.(acknowledged := s.acknowledged + [k], tasks := s.tasks[t := Holding])
  {
    hide Store, Stored;
    StoreAppends(s.server, |s.issued| - 1, |s.issued[|s.issued| - 1]|);
  }

  /** A batch on the way can arrive and be acknowledged. */
  lemma BatchArrives(events: seq<Event>, t: nat, bounds: LogBounds) returns (more: seq<Event>)
    requires Run(events, bounds).Some? && At(Run(events, bounds).value, t, Sending)
    ensures |more| == 3 && AllOwn(more, t) && Run(events + more, bounds).Some?
    ensures var s, next := Run(events, bounds).value, Run(events + more, bounds).value;
            && next.tasks == s.tasks[t := Holding] && next.queue == s.queue
            && next.accepted == s.accepted && next.issued == s.issued
            && next.acknowledged == s.acknowledged + [|s.issued| - 1]
  {
    var s := Run(events, bounds).value;
    Always(events, bounds);
    assert s.issued != [];
    AckStep(s, t, bounds);
    hide Run, Next, Enabled, Inv, At;
    assert events + [] == events;
    var k := |s.issued| - 1;
    var sent := Next(s, Send(t), bounds);
    more := OneMore(events, [], Send(t), s, bounds);
    more := OneMore(events, more, Arrive(k, |s.issued[k]|), sent, bounds);
    more := OneMore(events, more, Ack(t), Next(sent, Arrive(k, |s.issued[k]|), bounds), bounds);
  }

  lemma CheckStep(events: seq<Event>, t: nat, bounds: LogBounds)
    requires Run(events, bounds).Some? && At(Run(events, bounds).value, t, Holding)
    ensures Run(events + [Check(t)], bounds).Some?
    ensures var s, next := Run(events, bounds).value, Run(events + [Check(t)], bounds).value;
            && next.accepted == s.accepted && next.queue.deliveryStopped == s.queue.deliveryStopped
            && if s.queue.deliveryStopped.Some? || s.queue.pending == [] then
                 next.tasks == s.tasks - {t} && LockFree(next) && next.queue.pending == []
               else
                 next.tasks == s.tasks[t := Sending] && |next.queue.pending| < |s.queue.pending|
  {
    var s := Run(events, bounds).value;
    RunGoesOn(events, Check(t), s, bounds);
    LoopEnds(events, t, bounds);
    Always(events, bounds);
    hide Run, LockFree, LockOwned, ServerSound, BatchSize, Bytes;
    TakeAccounts(s.queue, bounds, s.accepted, BatchMaxLines(bounds));
    if s.queue.deliveryStopped.None? && s.queue.pending != [] {
      assert |Next(s, Check(t), bounds).queue.pending| < |s.queue.pending|;
    }
  }

  lemma JoinOwn(a: seq<Event>, b: seq<Event>, t: nat)
    requires AllOwn(a, t) && AllOwn(b, t)
    ensures AllOwn(a + b, t)
  {
  }

  /**
   Whoever holds the flush lock, in whatever reachable state, can give it back
   within four steps a pending line, by its own steps and the arrival of its
   requests alone; then nothing that was pending is left.
   */
  lemma {:induction false} LockComesBack(events: seq<Event>, t: nat, bounds: LogBounds) returns (more: seq<Event>)
    requires Run(events, bounds).Some? && HasLock(Run(events, bounds).value, t)
    ensures AllOwn(more, t) && Run(events + more, bounds).Some?
    ensures |more| <= 4 * |Run(events, bounds).value.queue.pending| + 4
    ensures At(Run(events, bounds).value, t, Holding) ==> |more| <= 4 * |Run(events, bounds).value.queue.pending| + 1
    ensures var s, next := Run(events, bounds).value, Run(events + more, bounds).value;
            && LockFree(next) && next.tasks == s.tasks - {t} && next.queue.pending == []
            && next.accepted == s.accepted && next.queue.deliveryStopped == s.queue.deliveryStopped
    decreases |Run(events, bounds).value.queue.pending|, At(Run(events, bounds).value, t, Sending)
  {
    hide Run, LockFree;
    var s := Run(events, bounds).value;
    if At(s, t, Sending) {
      var first := BatchArrives(events, t, bounds);
      var rest := LockComesBack(events + first, t, bounds);
      more := first + rest;
      JoinOwn(first, rest, t);
      assert events + more == events + first + rest;
    } else {
      CheckStep(events, t, bounds);
      more := [Check(t)];
      if s.queue.deliveryStopped.None? && s.queue.pending != [] {
        var rest := LockComesBack(events + [Check(t)], t, bounds);
        JoinOwn(more, rest, t);
        assert events + (more + rest) == events + [Check(t)] + rest;
        more := more + rest;
      }
    }
  }

  // ------------------------------------------------------------ everything can be delivered

  /** No new call, no failure and no drop: what goes on is what is under way. */
  predicate Continues(e: Event) {
    !e.LogCall? && !e.FlushCall? && !e.GiveUp? && !e.DropTask?
  }

  predicate AllContinue(events: seq<Event>) {
    forall i :: 0 <= i < |events| ==> Continues(events[i])
  }

  /** The same queue, with another task at another place. */
  ghost predicate SameQueue(s: State, next: State) {
    next.queue == s.queue && next.accepted == s.accepted
  }

  lemma WakeStep(s: State, e: Event, bounds: LogBounds)
    requires Enabled(s, e, bounds) && LockFree(s) && (e.Fire? || e.Proceed?)
    ensures SameQueue(s, Next(s, e, bounds)) && LockFree(Next(s, e, bounds))
    ensures e.Fire? ==> At(Next(s, e, bounds), e.task, Waiting)
    ensures e.Proceed? && s.tasks[e.task].flushNow ==> At(Next(s, e, bounds), e.task, Waiting)
    ensures e.Proceed? && !s.tasks[e.task].flushNow && !s.flushScheduled ==> At(Next(s, e, bounds), e.task, Sleeping)
  {
  }

  lemma Acquires(events: seq<Event>, t: nat, bounds: LogBounds)
    requires Run(events, bounds).Some? && LockFree(Run(events, bounds).value)
    requires At(Run(events, bounds).value, t, Waiting)
    ensures Run(events + [Acquire(t)], bounds).Some?
    ensures var next := Run(events + [Acquire(t)], bounds).value;
            At(next, t, Holding) && SameQueue(Run(events, bounds).value, next)
  {
    RunGoesOn(events, Acquire(t), Run(events, bounds).value, bounds);
    hide Run, LockFree;
  }

  lemma Wakes(events: seq<Event>, e: Event, bounds: LogBounds)
    requires Run(events, bounds).Some? && LockFree(Run(events, bounds).value)
    requires Enabled(Run(events, bounds).value, e, bounds) && (e.Fire? || e.Proceed?)
    ensures Run(events + [e], bounds) == Some(Next(Run(events, bounds).value, e, bounds))
    ensures SameQueue(Run(events, bounds).value, Run(events + [e], bounds).value)
    ensures LockFree(Run(events + [e], bounds).value)
  {
    hide Run, Next, Enabled, LockFree, SameQueue;
    RunGoesOn(events, e, Run(events, bounds).value, bounds);
    WakeStep(Run(events, bounds).value, e, bounds);
  }

  /** A task that is not done takes the free lock, within three steps. */
  lemma TimerAcquires(events: seq<Event>, t: nat, bounds: LogBounds) returns (more: seq<Event>)
    requires Run(events, bounds).Some? && LockFree(Run(events, bounds).value)
    requires At(Run(events, bounds).value, t, Sleeping)
    ensures |more| == 2 && AllContinue(more) && Run(events + more, bounds).Some?
    ensures var next := Run(events + more, bounds).value;
            At(next, t, Holding) && SameQueue(Run(events, bounds).value, next)
  {
    var s := Run(events, bounds).value;
    WakeStep(s, Fire(t), bounds);
    hide Run, Next, LockFree;
    Wakes(events, Fire(t), bounds);
    Acquires(events + [Fire(t)], t, bounds);
    more := [Fire(t), Acquire(t)];
    assert events + more == events + [Fire(t)] + [Acquire(t)];
  }

  lemma CallAcquires(events: seq<Event>, t: nat, bounds: LogBounds) returns (more: seq<Event>)
    requires Run(events, bounds).Some? && LockFree(Run(events, bounds).value)
    requires t in Run(events, bounds).value.tasks && Run(events, bounds).value.tasks[t].Decided?
    requires Run(events, bounds).value.tasks[t].flushNow || !Run(events, bounds).value.flushScheduled
    ensures |more| <= 3 && AllContinue(more) && Run(events + more, bounds).Some?
    ensures var next := Run(events + more, bounds).value;
            At(next, t, Holding) && SameQueue(Run(events, bounds).value, next)
  {
    hide Run, Next, LockFree;
    var s := Run(events, bounds).value;
    WakeStep(s, Proceed(t), bounds);
    Wakes(events, Proceed(t), bounds);
    hide Enabled;
    if s.tasks[t].flushNow {
      Acquires(events + [Proceed(t)], t, bounds);
      more := [Proceed(t), Acquire(t)];
      assert events + more == events + [Proceed(t)] + [Acquire(t)];
    } else {
      var rest := TimerAcquires(events + [Proceed(t)], t, bounds);
      more := [Proceed(t)] + rest;
      assert events + more == events + [Proceed(t)] + rest;
    }
  }

  lemma SomebodyAcquires(events: seq<Event>, bounds: LogBounds) returns (t: nat, more: seq<Event>)
    requires Run(events, bounds).Some? && LockFree(Run(events, bounds).value)
    requires Attended(Run(events, bounds).value) && TimerOwned(Run(events, bounds).value)
    requires Run(events, bounds).value.queue.deliveryStopped.None? && Run(events, bounds).value.queue.pending != []
    ensures |more| <= 3 && AllContinue(more) && Run(events + more, bounds).Some?
    ensures var next := Run(events + more, bounds).value;
            At(next, t, Holding) && SameQueue(Run(events, bounds).value, next)
  {
    hide Run;
    var s := Run(events, bounds).value;
    if s.flushScheduled {
      t :| At(s, t, Sleeping);
      more := TimerAcquires(events, t, bounds);
    } else {
      t :| Active(s, t);
      if s.tasks[t].Decided? {
        more := CallAcquires(events, t, bounds);
      } else {
        assert At(s, t, Waiting);
        Acquires(events, t, bounds);
        more := [Acquire(t)];
      }
    }
  }

  lemma OwnContinues(events: seq<Event>, t: nat)
    requires AllOwn(events, t)
    ensures AllContinue(events)
  {
    forall i | 0 <= i < |events| ensures Continues(events[i]) {
      assert IsOwn(events[i], t);
    }
  }

  /** From a state where somebody attends, the queue empties. */
  lemma QueueEmpties(events: seq<Event>, bounds: LogBounds) returns (more: seq<Event>)
    requires Run(events, bounds).Some? && Run(events, bounds).value.queue.deliveryStopped.None?
    requires Attended(Run(events, bounds).value) && TimerOwned(Run(events, bounds).value)
    ensures AllContinue(more) && |more| <= 4 * |Run(events, bounds).value.queue.pending| + 4
    ensures Run(events + more, bounds).Some?
    ensures var s, next := Run(events, bounds).value, Run(events + more, bounds).value;
            && next.queue.pending == [] && next.queue.deliveryStopped.None? && LockFree(next)
            && next.accepted == s.accepted
  {
    hide Run, Attended, TimerOwned;
    var s := Run(events, bounds).value;
    if t: nat :| HasLock(s, t) {
      more := LockComesBack(events, t, bounds);
      OwnContinues(more, t);
    } else {
      assert LockFree(s) by {
        forall t | t in s.tasks ensures !s.tasks[t].Holding? && !s.tasks[t].Sending? {
          assert !HasLock(s, t);
        }
      }
      if s.queue.pending == [] {
        more := [];
        assert events + more == events;
      } else {
        hide LockFree;
        var t, first := SomebodyAcquires(events, bounds);
        var rest := LockComesBack(events + first, t, bounds);
        OwnContinues(rest, t);
        more := first + rest;
        assert events + more == events + first + rest;
      }
    }
  }

  /**
   In every run without drops in which delivery has not been stopped, the tasks
   that are under way can bring everything that was accepted to the control
   plane, each line once and in order, within four steps a pending line and four
   more.
   */
  lemma EverythingCanBeDelivered(events: seq<Event>, bounds: LogBounds) returns (more: seq<Event>)
    requires Run(events, bounds).Some? && NothingDropped(events)
    requires Run(events, bounds).value.queue.deliveryStopped.None?
    ensures AllContinue(more) && |more| <= 4 * |Run(events, bounds).value.queue.pending| + 4
    ensures Run(events + more, bounds).Some?
    ensures Inv(Run(events + more, bounds).value, bounds)
    ensures var s, next := Run(events, bounds).value, Run(events + more, bounds).value;
            next.accepted == s.accepted && Lines(next.server, next.issued) == s.accepted
  {
    hide Run, Attended, TimerOwned, Lines, Inv;
    StaysAttended(events, bounds);
    OneTimer(events, bounds);
    more := QueueEmpties(events, bounds);
    forall i | 0 <= i < |events + more| ensures !(events + more)[i].DropTask? {
      if i >= |events| {
        assert Continues(more[i - |events|]);
      }
    }
    ExactlyOnceInOrder(events + more, bounds);
    NotBusy(Run(events + more, bounds).value);
  }

  lemma NotBusy(s: State)
    requires LockFree(s)
    ensures !Busy(s)
  {
  }
}
