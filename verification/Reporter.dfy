/**
 The log reporter of one command (`ApiRuntimeReporter` in
 crates/sakala-agent-core/src/reporting/runtime.rs).

 Each method is one critical section under the state lock, or one atomic
 access, except `FlushPending`, which is the whole drain loop with the calls of
 `log` that run meanwhile. `Delivery` interleaves the sections of all tasks.
 */
module Reporter {
  import opened Wrappers
  import opened BoundedLog
  import opened LogQueue
  import opened Ports

  lemma FlattenNext(sent: seq<seq<DeploymentLog>>, batch: seq<DeploymentLog>)
    ensures (sent + [batch])[..|sent|] == sent
    ensures Flatten(sent + [batch]) == Flatten(sent) + batch
    ensures Flatten([]) == []
  {
    assert (sent + [batch])[..|sent|] == sent;
  }

  class ApiRuntimeReporter {
    const logBounds: LogBounds
    const batchMaxLines: nat
    var state: LogState
    var flushScheduled: bool
    var deploymentCommitted: bool
    var committedSlot: Option<CommandOutput>

    /** Every line ever queued, and what became of it. */
    ghost var accepted: seq<DeploymentLog>
    ghost var acknowledged: seq<DeploymentLog>
    ghost var inFlight: seq<DeploymentLog>

    ghost predicate Valid()
      reads this
    {
      && batchMaxLines == BatchMaxLines(logBounds)
      && Accounted(state, logBounds, accepted)
      && (state.deliveryStopped.None? ==> accepted == acknowledged + inFlight + state.pending)
      && (state.deliveryStopped.Some? ==> acknowledged <= accepted && inFlight == [])
      && (deploymentCommitted ==> committedSlot.Some?)
    }

    constructor (bounds: LogBounds)
      ensures Valid() && logBounds == bounds
      ensures state == EMPTY && accepted == [] && acknowledged == [] && inFlight == []
      ensures !flushScheduled && !deploymentCommitted && committedSlot == None
    {
      logBounds := bounds;
      batchMaxLines := BatchMaxLines(bounds);
      state := EMPTY;
      flushScheduled := false;
      deploymentCommitted := false;
      committedSlot := None;
      accepted, acknowledged, inFlight := [], [], [];
    }

    /** The critical section of `log`. A stopped reporter accepts nothing. */
    method Log(log: DeploymentLog) returns (result: LogResult)
      requires Valid()
      modifies this`state, this`accepted
      ensures Valid()
      ensures (state, result) == Accept(old(state), log, logBounds)
      ensures result.Queued? ==>
                accepted == old(accepted) + [state.pending[|old(state).pending|]]
      ensures !result.Queued? ==> accepted == old(accepted) && state == old(state)
    {
      hide BoundLog, Accounted;
      AcceptAccounts(state, log, logBounds, accepted);
      if state.deliveryStopped.Some? {
        return Stopped(state.deliveryStopped.value);
      }
      match BoundLog(log, logBounds, state.bytesSent) {
        case Panics => return LinePanics;
        case Dropped => return LineDropped;
        case Kept(kept) =>
          state := state.(
            bytesSent := state.bytesSent + |kept.message|,
            pendingBytes := state.pendingBytes + |kept.message|,
            pending := state.pending + [kept]);
          accepted := accepted + [kept];
          assert acknowledged + inFlight + state.pending == acknowledged + inFlight + old(state).pending + [kept];
          return Queued(|state.pending| >= batchMaxLines || state.pendingBytes >= MAX_BATCH_BYTES);
      }
    }

    /** The counting loop of `flush_pending`. */
    method CountBatch() returns (count: nat, bytes: nat)
      requires Valid()
      ensures count == BatchSize(state.pending, batchMaxLines)
      ensures bytes == Bytes(state.pending[..count])
    {
      count, bytes := 0, 0;
      while count < |state.pending|
        invariant count <= |state.pending|
        invariant bytes == Bytes(state.pending[..count])
        invariant GrowBatch(state.pending, batchMaxLines, count) == BatchSize(state.pending, batchMaxLines)
      {
        BytesNext(state.pending, count);
        if count > 0
           && (count >= batchMaxLines || bytes + |state.pending[count].message| > MAX_BATCH_BYTES)
        {
          return;
        }
        bytes := bytes + |state.pending[count].message|;
        count := count + 1;
      }
    }

    /** The critical section at the head of the drain loop; the flush lock keeps batches apart. */
    method TakeBatch() returns (taken: Taken)
      requires Valid() && inFlight == []
      modifies this`state, this`inFlight
      ensures Valid()
      ensures (state, taken) == Take(old(state), batchMaxLines)
      ensures inFlight == if taken.Batch? then taken.lines else []
      ensures taken.Batch? ==> BatchWithin(taken.lines, batchMaxLines)
    {
      hide Accounted, BatchSize, Bytes;
      TakeAccounts(state, logBounds, accepted, batchMaxLines);
      if state.deliveryStopped.Some? {
        return TakenStopped(state.deliveryStopped.value);
      }
      if state.pending == [] {
        return NothingPending;
      }
      var count, bytes := CountBatch();
      taken := Batch(state.pending[..count]);
      state := state.(
        pendingBytes := SaturatingSub(state.pendingBytes, bytes),
        pending := state.pending[count..]);
      inFlight := taken.lines;
      assert acknowledged + inFlight + state.pending == acknowledged + (inFlight + state.pending);
    }

    ghost method Acknowledge()
      requires Valid() && state.deliveryStopped.None?
      modifies this`acknowledged, this`inFlight
      ensures Valid()
      ensures acknowledged == old(acknowledged) + old(inFlight) && inFlight == []
    {
      acknowledged, inFlight := acknowledged + inFlight, [];
    }

    /** The latch: from here on nothing is pending, accepted or sent. */
    method DeliveryFailed(reason: string)
      requires Valid()
      modifies this`state, this`inFlight
      ensures Valid()
      ensures state == Fail(old(state), reason) && inFlight == []
    {
      state := state.(pending := [], pendingBytes := 0, deliveryStopped := Some(reason));
      inFlight := [];
    }

    /** The calls of `log` that run while a request is on the way. */
    method LogAll(lines: seq<DeploymentLog>)
      requires Valid()
      modifies this`state, this`accepted
      ensures Valid() && state.deliveryStopped == old(state).deliveryStopped && old(accepted) <= accepted
      ensures lines == [] ==> state == old(state)
    {
      hide ApiRuntimeReporter.Valid, Accept;
      for i := 0 to |lines|
        invariant Valid() && state.deliveryStopped == old(state).deliveryStopped && old(accepted) <= accepted
        invariant i == 0 ==> state == old(state)
      {
        AcceptKeepsRunning(state, lines[i], logBounds);
        var result := Log(lines[i]);
      }
    }

    /**
     The drain loop. `outcomes(k)` says how the k-th request of this flush ends:
     acknowledged, or failed for a reason; `arrivals[k]` are the lines that other
     calls log in the meantime. Batches are within the limits and go out in
     order, up to the first failure; what was acknowledged is exactly what was
     sent before it, and a flush that ends well leaves nothing accepted behind.
     With no arrivals the batches are those of the partition.
     */
    method FlushPending(outcomes: nat -> Option<string>, arrivals: seq<seq<DeploymentLog>>)
        returns (sent: seq<seq<DeploymentLog>>, result: Result<(), string>)
      requires Valid() && inFlight == []
      modifies this`state, this`inFlight, this`acknowledged, this`accepted
      ensures Valid() && inFlight == [] && old(accepted) <= accepted
      ensures old(state).deliveryStopped.Some? ==>
                sent == [] && state == old(state) && result == Err(old(state).deliveryStopped.value)
      ensures forall k :: 0 <= k < |sent| ==> BatchWithin(sent[k], batchMaxLines)
      ensures old(state).deliveryStopped.None? && result.Ok? ==>
                && state.pending == [] && state.deliveryStopped.None?
                && acknowledged == old(acknowledged) + Flatten(sent) == accepted
      ensures old(state).deliveryStopped.None? && result.Err? ==>
                && sent != [] && state.deliveryStopped == Some(result.error)
                && acknowledged == old(acknowledged) + Flatten(sent[..|sent| - 1])
                && outcomes(|sent| - 1) == Some(result.error)
      ensures old(state).deliveryStopped.None? && arrivals == [] ==>
                && sent <= Batches(old(state).pending, batchMaxLines)
                && (result.Ok? ==> sent == Batches(old(state).pending, batchMaxLines))
    {
      hide ApiRuntimeReporter.Valid, Take, Batches, Flatten, BatchWithin, BatchSize, Bytes, Accept;
      sent := [];
      FlattenNext(sent, []);
      ghost var pending := state.pending;
      ghost var wasStopped := state.deliveryStopped;
      while true
        invariant Valid() && inFlight == [] && old(accepted) <= accepted
        invariant state.deliveryStopped == wasStopped
        invariant wasStopped.Some? ==> sent == [] && state == old(state)
        invariant wasStopped.None? && arrivals == [] ==>
                    sent + Batches(state.pending, batchMaxLines) == Batches(pending, batchMaxLines)
        invariant forall k :: 0 <= k < |sent| ==> BatchWithin(sent[k], batchMaxLines)
        invariant acknowledged == old(acknowledged) + Flatten(sent)
        decreases if |sent| < |arrivals| then |arrivals| - |sent| else 0, |state.pending|
      {
        TakesNextOfBatches(state, batchMaxLines);
        var taken := TakeBatch();
        match taken {
          case TakenStopped(reason) =>
            return sent, Err(reason);
          case NothingPending =>
            NothingLeftBehind();
            return sent, Ok(());
          case Batch(lines) =>
            Regroup(sent, [lines], Batches(state.pending, batchMaxLines));
            FlattenNext(sent, lines);
            if |sent| < |arrivals| {
              LogAll(arrivals[|sent|]);
            }
            sent := sent + [lines];
            var failure := outcomes(|sent| - 1);
            if failure.Some? {
              DeliveryFailed(failure.value);
              return sent, Err(failure.value);
            }
            Acknowledge();
        }
      }
    }

    lemma NothingLeftBehind()
      requires Valid() && inFlight == [] && state.deliveryStopped.None? && state.pending == []
      ensures acknowledged == accepted
    {
    }

    /** The swap of `schedule_flush`: only the caller that sets the flag spawns the timer. */
    method ScheduleFlush() returns (spawn: bool)
      requires Valid()
      modifies this`flushScheduled
      ensures Valid()
      ensures spawn == !old(flushScheduled) && flushScheduled
    {
      spawn := !flushScheduled;
      flushScheduled := true;
    }

    /** The store when the timer wakes up, before it flushes. */
    method TimerFired()
      requires Valid()
      modifies this`flushScheduled
      ensures Valid() && !flushScheduled
    {
      flushScheduled := false;
    }

    /**
     The output is stored before the flag, so whoever sees the flag finds the
     output: `seen` is what a reader finds, output and flag, after each of the two
     stores.
     */
    method MarkDeploymentCommitted(output: CommandOutput) returns (ghost seen: seq<(Option<CommandOutput>, bool)>)
      requires Valid()
      modifies this`committedSlot, this`deploymentCommitted
      ensures Valid()
      ensures deploymentCommitted && committedSlot == Some(output)
      ensures seen == [(Some(output), old(deploymentCommitted)), (committedSlot, deploymentCommitted)]
      ensures forall k :: 0 <= k < |seen| && seen[k].1 ==> seen[k].0 == Some(output)
    {
      committedSlot := Some(output);
      seen := [(committedSlot, deploymentCommitted)];
      assert Valid();
      deploymentCommitted := true;
      seen := seen + [(committedSlot, deploymentCommitted)];
    }

    method DeploymentCommitted() returns (committed: bool)
      ensures committed == deploymentCommitted
    {
      committed := deploymentCommitted;
    }

    method CommittedOutput() returns (output: Option<CommandOutput>)
      requires Valid()
      ensures output == if deploymentCommitted then committedSlot else None
      ensures deploymentCommitted ==> output.Some?
    {
      var committed := DeploymentCommitted();
      if !committed {
        return None;
      }
      return committedSlot;
    }
  }
}
