/**
 The guarded state of the log reporter (`LogState` in
 crates/sakala-agent-core/src/reporting/runtime.rs) and what each of its
 critical sections computes.
 */
module LogQueue {
  import opened Wrappers
  import opened BoundedLog

  const DEFAULT_BATCH_LINES: nat := 100
  const MAX_BATCH_BYTES: nat := 512 * 1024

  datatype LogState = LogState(
    pending: seq<DeploymentLog>,
    pendingBytes: nat,
    bytesSent: nat,
    deliveryStopped: Option<string>)

  const EMPTY := LogState([], 0, 0, None)

  /** The policy can only lower the local ceiling, and a batch always has room for a line. */
  function BatchMaxLines(bounds: LogBounds): (n: nat)
    ensures 1 <= n <= DEFAULT_BATCH_LINES
    ensures bounds.maxBatchLines.Some? && bounds.maxBatchLines.value >= 1 ==> n <= bounds.maxBatchLines.value
  {
    var lines := match bounds.maxBatchLines
      case None => DEFAULT_BATCH_LINES
      case Some(lines) => if lines < DEFAULT_BATCH_LINES then lines else DEFAULT_BATCH_LINES;
    if lines < 1 then 1 else lines
  }

  /** It is the largest number of lines that neither the ceiling nor a policy of at least one line forbids. */
  lemma BatchMaxLinesIsLargest(bounds: LogBounds, m: nat)
    requires 1 <= m <= DEFAULT_BATCH_LINES
    requires bounds.maxBatchLines.Some? ==> m == 1 || m <= bounds.maxBatchLines.value
    ensures m <= BatchMaxLines(bounds)
  {
  }

  /** Message bytes of a sequence of lines. */
  function Bytes(logs: seq<DeploymentLog>): (n: nat) {
    if logs == [] then 0 else Bytes(logs[..|logs| - 1]) + |logs[|logs| - 1].message|
  }

  lemma {:induction false} BytesJoin(a: seq<DeploymentLog>, b: seq<DeploymentLog>)
    ensures Bytes(a + b) == Bytes(a) + Bytes(b)
  {
    if b == [] {
      assert a + b == a;
    } else {
      assert (a + b)[..|a + b| - 1] == a + b[..|b| - 1];
      BytesJoin(a, b[..|b| - 1]);
    }
  }

  lemma BytesNext(logs: seq<DeploymentLog>, n: nat)
    requires n < |logs|
    ensures Bytes(logs[..n + 1]) == Bytes(logs[..n]) + |logs[n].message|
  {
    assert logs[..n + 1][..n] == logs[..n];
  }

  // ------------------------------------------------------------ accepting a line

  datatype LogResult =
    | Stopped(reason: string)
    | LinePanics
    | LineDropped
    | Queued(flushNow: bool)

  /** The critical section of `log`. */
  function Accept(s: LogState, log: DeploymentLog, bounds: LogBounds): (r: (LogState, LogResult)) {
    if s.deliveryStopped.Some? then (s, Stopped(s.deliveryStopped.value))
    else
      match BoundLog(log, bounds, s.bytesSent)
      case Panics => (s, LinePanics)
      case Dropped => (s, LineDropped)
      case Kept(kept) =>
        var next := LogState(s.pending + [kept], s.pendingBytes + |kept.message|, s.bytesSent + |kept.message|, None);
        (next, Queued(IsFull(next, bounds)))
  }

  /** A whole batch is waiting. */
  predicate IsFull(s: LogState, bounds: LogBounds) {
    |s.pending| >= BatchMaxLines(bounds) || s.pendingBytes >= MAX_BATCH_BYTES
  }

  // ------------------------------------------------------------ taking a batch

  /** The first `n` pending lines may travel in one request. */
  predicate Fits(pending: seq<DeploymentLog>, maxLines: nat, n: nat)
    requires n <= |pending|
  {
    n <= 1 || (n <= maxLines && Bytes(pending[..n]) <= MAX_BATCH_BYTES)
  }

  /** The longest batch: as many leading lines as fit. */
  ghost predicate IsBatchSize(pending: seq<DeploymentLog>, maxLines: nat, n: nat) {
    && n <= |pending| && Fits(pending, maxLines, n)
    && forall m: nat :: m <= |pending| && Fits(pending, maxLines, m) ==> m <= n
  }

  function GrowBatch(pending: seq<DeploymentLog>, maxLines: nat, n: nat): (size: nat)
    requires n <= |pending|
    ensures n <= size <= |pending|
    decreases |pending| - n
  {
    if n < |pending| && Fits(pending, maxLines, n + 1) then GrowBatch(pending, maxLines, n + 1) else n
  }

  function BatchSize(pending: seq<DeploymentLog>, maxLines: nat): (size: nat)
    ensures size <= |pending|
    ensures pending != [] ==> size >= 1
  {
    GrowBatch(pending, maxLines, 0)
  }

  lemma BytesGrow(pending: seq<DeploymentLog>, m: nat, n: nat)
    requires m <= n <= |pending|
    ensures Bytes(pending[..m]) <= Bytes(pending[..n])
  {
    assert pending[..n] == pending[..m] + pending[m..n];
    BytesJoin(pending[..m], pending[m..n]);
  }

  lemma {:induction false} GrowsToLongest(pending: seq<DeploymentLog>, maxLines: nat, n: nat)
    requires n <= |pending| && Fits(pending, maxLines, n)
    ensures IsBatchSize(pending, maxLines, GrowBatch(pending, maxLines, n))
    decreases |pending| - n
  {
    if n < |pending| && Fits(pending, maxLines, n + 1) {
      GrowsToLongest(pending, maxLines, n + 1);
    } else {
      forall m: nat | m <= |pending| && Fits(pending, maxLines, m) ensures m <= n {
        if n < m {
          BytesGrow(pending, n + 1, m);
        }
      }
    }
  }

  lemma BatchIsLongest(pending: seq<DeploymentLog>, maxLines: nat)
    ensures IsBatchSize(pending, maxLines, BatchSize(pending, maxLines))
  {
    GrowsToLongest(pending, maxLines, 0);
  }

  datatype Taken = TakenStopped(reason: string) | NothingPending | Batch(lines: seq<DeploymentLog>)

  /** `usize::saturating_sub`. */
  function SaturatingSub(a: nat, b: nat): nat {
    if b <= a then a - b else 0
  }

  /** The critical section at the head of the loop of `flush_pending`. */
  function Take(s: LogState, maxLines: nat): (r: (LogState, Taken)) {
    if s.deliveryStopped.Some? then (s, TakenStopped(s.deliveryStopped.value))
    else if s.pending == [] then (s, NothingPending)
    else
      var n := BatchSize(s.pending, maxLines);
      (s.(pending := s.pending[n..],
          pendingBytes := SaturatingSub(s.pendingBytes, Bytes(s.pending[..n]))),
       Batch(s.pending[..n]))
  }

  /** The latch: pending lines are dropped and later calls fail. */
  function Fail(s: LogState, reason: string): LogState {
    s.(pending := [], pendingBytes := 0, deliveryStopped := Some(reason))
  }

  // ------------------------------------------------------------ draining everything

  function Flatten(batches: seq<seq<DeploymentLog>>): (lines: seq<DeploymentLog>) {
    if batches == [] then [] else Flatten(batches[..|batches| - 1]) + batches[|batches| - 1]
  }

  /** The batches a flush sends when nothing more is logged and every batch is acknowledged. */
  function Batches(pending: seq<DeploymentLog>, maxLines: nat): (batches: seq<seq<DeploymentLog>>)
    decreases |pending|
  {
    if pending == [] then []
    else
      var n := BatchSize(pending, maxLines);
      [pending[..n]] + Batches(pending[n..], maxLines)
  }

  lemma TakesNextOfBatches(s: LogState, maxLines: nat)
    ensures var (next, taken) := Take(s, maxLines);
            && (taken.Batch? ==> s.deliveryStopped.None? && next.deliveryStopped.None? && |next.pending| < |s.pending|
                                 && Batches(s.pending, maxLines) == [taken.lines] + Batches(next.pending, maxLines))
            && (taken.NothingPending? ==> s.pending == [] && Batches(s.pending, maxLines) == [])
            && (!taken.Batch? ==> next == s)
            && (taken.TakenStopped? ==> s.deliveryStopped == Some(taken.reason))
            && (!taken.TakenStopped? ==> s.deliveryStopped.None?)
  {
  }

  lemma {:induction false} FlattenJoin(a: seq<seq<DeploymentLog>>, b: seq<seq<DeploymentLog>>)
    ensures Flatten(a + b) == Flatten(a) + Flatten(b)
  {
    if b == [] {
      assert a + b == a;
    } else {
      var last := |b| - 1;
      assert (a + b)[..|a + b| - 1] == a + b[..last] && (a + b)[|a + b| - 1] == b[last];
      FlattenJoin(a, b[..last]);
      Regrouped(Flatten(a), Flatten(b[..last]), b[last]);
    }
  }

  lemma Regrouped(a: seq<DeploymentLog>, b: seq<DeploymentLog>, c: seq<DeploymentLog>)
    ensures (a + b) + c == a + (b + c)
  {
  }

  lemma FlattenOne(batch: seq<DeploymentLog>)
    ensures Flatten([batch]) == batch
  {
    assert [batch][..0] == [];
  }

  predicate BatchWithin(batch: seq<DeploymentLog>, maxLines: nat) {
    && 1 <= |batch|
    && (|batch| <= maxLines || |batch| == 1)
    && (Bytes(batch) <= MAX_BATCH_BYTES || |batch| == 1)
  }

  /** Draining splits the pending lines into contiguous batches within the limits, losing nothing. */
  lemma {:induction false} BatchesPartition(pending: seq<DeploymentLog>, maxLines: nat)
    ensures var batches := Batches(pending, maxLines);
            && Flatten(batches) == pending
            && forall i :: 0 <= i < |batches| ==> BatchWithin(batches[i], maxLines)
    decreases |pending|
  {
    if pending != [] {
      var n := BatchSize(pending, maxLines);
      BatchIsLongest(pending, maxLines);
      BatchesPartition(pending[n..], maxLines);
      FlattenJoin([pending[..n]], Batches(pending[n..], maxLines));
      FlattenOne(pending[..n]);
      assert pending == pending[..n] + pending[n..];
    }
  }

  // ------------------------------------------------------------ accounting

  /** Pending bytes are exact, the budget is the accepted bytes, and a stopped queue is empty. */
  ghost predicate Accounted(s: LogState, bounds: LogBounds, accepted: seq<DeploymentLog>) {
    && s.pendingBytes == Bytes(s.pending)
    && s.bytesSent == Bytes(accepted)
    && (bounds.maxTotalBytes.Some? ==> s.bytesSent <= bounds.maxTotalBytes.value)
    && (s.deliveryStopped.Some? ==> s.pending == [])
  }

  lemma AcceptKeepsRunning(queue: LogState, log: DeploymentLog, bounds: LogBounds)
    ensures Accept(queue, log, bounds).0.deliveryStopped == queue.deliveryStopped
    ensures Accept(queue, log, bounds).1.Queued? ==> queue.deliveryStopped.None?
  {
    hide BoundLog;
  }

  lemma AcceptAccounts(s: LogState, log: DeploymentLog, bounds: LogBounds, accepted: seq<DeploymentLog>)
    requires Accounted(s, bounds, accepted)
    ensures var (next, result) := Accept(s, log, bounds);
            && (result.Queued? <==> s.deliveryStopped.None? && BoundLog(log, bounds, s.bytesSent).Kept?)
            && (result.Queued? ==>
                  && (result.flushNow <==> IsFull(next, bounds))
                  && next.pending[|s.pending|..] == [BoundLog(log, bounds, s.bytesSent).log]
                  && |next.pending| == |s.pending| + 1
                  && s.pending <= next.pending
                  && Accounted(next, bounds, accepted + [next.pending[|s.pending|]]))
            && (!result.Queued? ==> next == s)
  {
    var bounded := BoundLog(log, bounds, s.bytesSent);
    if s.deliveryStopped.None? && bounded.Kept? {
      BytesJoin(s.pending, [bounded.log]);
      BytesJoin(accepted, [bounded.log]);
      BytesOne(bounded.log);
      hide BoundLog;
      KeptWithinBudget(log, bounds, s.bytesSent);
    }
  }

  lemma BytesOne(log: DeploymentLog)
    ensures Bytes([log]) == |log.message|
  {
    assert Bytes([log][..0]) == 0;
  }

  lemma KeptWithinBudget(log: DeploymentLog, bounds: LogBounds, sent: nat)
    requires BoundLog(log, bounds, sent).Kept?
    ensures bounds.maxTotalBytes.Some? ==>
              sent + |BoundLog(log, bounds, sent).log.message| <= bounds.maxTotalBytes.value
  {
  }

  /** The saturating subtraction of `flush_pending` never saturates. */
  lemma TakeAccounts(s: LogState, bounds: LogBounds, accepted: seq<DeploymentLog>, maxLines: nat)
    requires Accounted(s, bounds, accepted)
    ensures var (next, taken) := Take(s, maxLines);
            && Accounted(next, bounds, accepted)
            && (taken.Batch? ==>
                  && s.deliveryStopped.None? && next.deliveryStopped.None?
                  && taken.lines + next.pending == s.pending && BatchWithin(taken.lines, maxLines)
                  && IsBatchSize(s.pending, maxLines, |taken.lines|)
                  && next.pendingBytes + Bytes(taken.lines) == s.pendingBytes)
            && (!taken.Batch? ==> next == s && s.pending == [])
  {
    if s.deliveryStopped.None? && s.pending != [] {
      var n := BatchSize(s.pending, maxLines);
      BatchIsLongest(s.pending, maxLines);
      assert s.pending == s.pending[..n] + s.pending[n..];
      BytesJoin(s.pending[..n], s.pending[n..]);
    }
  }
}
