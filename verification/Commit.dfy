/**
 How one command runs to its terminal report: `CommandProcessor::process`
 (crates/sakala-agent-core/src/commands/processor.rs) racing the deployment of
 crates/sakala-agent-runtime/src/executor/docker.rs against its deadline.

 The runtime future is part of the processor's own task, so it moves only while
 the processor polls it: in the race, in the finalization grace, and in the
 short cleanup window. Everything else may happen at any time.
 */
module Commit {
  import opened Wrappers
  import opened BoundedLog
  import opened Ports
  import opened Reporter

  // ------------------------------------------------------------ the deferred output

  datatype DeferredReason = RuntimeError | GraceElapsed

  const DEFERRED := "finalization_deferred"
  const DEFERRED_REASON := "finalization_deferred_reason"
  const COMMITTED_RESULT := "committed_result"

  function ReasonText(reason: DeferredReason): (text: string) {
    match reason
    case RuntimeError => "runtime_error"
    case GraceElapsed => "grace_elapsed"
  }

  /** What is reported in place of the output that finalization did not deliver. */
  function Deferred(committed: CommandOutput, reason: DeferredReason): (output: CommandOutput) {
    var note := map[DEFERRED := Bool(true), DEFERRED_REASON := Text(ReasonText(reason))];
    match committed.result
    case Object(fields) => CommandOutput(Object(fields + note))
    case other => CommandOutput(Object(map[COMMITTED_RESULT := other] + note))
  }

  /**
   It says that it is deferred and why, and still carries everything else that
   was committed: every other field of an object, or any other value as a whole.
   */
  lemma DeferredCarriesCommitted(committed: CommandOutput, reason: DeferredReason)
    ensures var result := Deferred(committed, reason).result;
            && result.Object?
            && "finalization_deferred" in result.fields && result.fields["finalization_deferred"] == Bool(true)
            && "finalization_deferred_reason" in result.fields
            && result.fields["finalization_deferred_reason"]
               == Text(if reason == RuntimeError then "runtime_error" else "grace_elapsed")
            && (match committed.result
                case Object(fields) =>
                  result.fields - {DEFERRED, DEFERRED_REASON} == fields - {DEFERRED, DEFERRED_REASON}
                case other => result.fields - {DEFERRED, DEFERRED_REASON} == map[COMMITTED_RESULT := other])
  {
    var result := Deferred(committed, reason).result;
    match committed.result
    case Object(fields) =>
      assert result.fields - {DEFERRED, DEFERRED_REASON} == fields - {DEFERRED, DEFERRED_REASON};
    case other =>
      assert result.fields - {DEFERRED, DEFERRED_REASON} == map[COMMITTED_RESULT := other];
  }

  /** `deferred_committed_output`. */
  method DeferredCommittedOutput(reporter: ApiRuntimeReporter, reason: DeferredReason)
      returns (output: CommandOutput)
    requires reporter.Valid()
    ensures output == Deferred(
                        if reporter.deploymentCommitted then reporter.committedSlot.value else NO_OUTPUT, reason)
  {
    hide ApiRuntimeReporter.Valid;
    var committed := reporter.CommittedOutput();
    output := if committed.Some? then committed.value else NO_OUTPUT;
    match output.result {
      case Object(fields) =>
        var result := fields;
        result := result[DEFERRED := Bool(true)];
        result := result[DEFERRED_REASON := Text(ReasonText(reason))];
        assert result == fields + map[DEFERRED := Bool(true), DEFERRED_REASON := Text(ReasonText(reason))];
        output := output.(result := Object(result));
      case other =>
        var result := map[
          COMMITTED_RESULT := other,
          DEFERRED := Bool(true),
          DEFERRED_REASON := Text(ReasonText(reason))];
        assert result == map[COMMITTED_RESULT := other]
                         + map[DEFERRED := Bool(true), DEFERRED_REASON := Text(ReasonText(reason))];
        output := output.(result := Object(result));
    }
  }

  // ------------------------------------------------------------ the policy of a command

  datatype DeployPolicy = DeployPolicy(commandTimeoutSeconds: Option<nat>, logBounds: LogBounds)

  /** What the payload of a command says; `None` for a `DeployProject` payload that does not parse. */
  datatype Payload = NotDeploy | Deploy(policy: Option<DeployPolicy>)

  /** `command_policy`: the deadline in seconds and the log limits. */
  function CommandPolicy(payload: Payload, nodeTimeout: nat): (r: Result<(nat, LogBounds), string>)
    ensures r.Ok? && payload.Deploy? ==> 1 <= r.value.0 <= nodeTimeout
  {
    match payload
    case NotDeploy => Ok((nodeTimeout, LogBounds(None, None, None)))
    case Deploy(None) => Err("invalid_runtime_command")
    case Deploy(Some(policy)) =>
      var requested := if policy.commandTimeoutSeconds.Some? then policy.commandTimeoutSeconds.value else nodeTimeout;
      if requested == 0 || requested > nodeTimeout then Err("invalid_runtime_command")
      else Ok((requested, policy.logBounds))
  }

  /**
   Exactly when the policy is accepted, and what it then is: the node's deadline
   and no log limits for every command but a deployment; for a deployment its
   own limits and, if it asks for one, its own deadline.
   */
  lemma CommandPolicyIff(payload: Payload, nodeTimeout: nat, timeout: nat, bounds: LogBounds)
    ensures CommandPolicy(payload, nodeTimeout) == Ok((timeout, bounds)) <==>
              || (payload.NotDeploy? && timeout == nodeTimeout && bounds == LogBounds(None, None, None))
              || (&& payload.Deploy? && payload.policy.Some? && bounds == payload.policy.value.logBounds
                  && 1 <= timeout <= nodeTimeout
                  && payload.policy.value.commandTimeoutSeconds in {None, Some(timeout)}
                  && (payload.policy.value.commandTimeoutSeconds.None? ==> timeout == nodeTimeout))
  {
  }

  // ------------------------------------------------------------ the machine

  type Outcome = Result<CommandOutput, string>

  /** The runtime future. `Deploying` runs up to the cutover, `Finalizing` behind it. */
  datatype Progress =
    | Preparing
    | Deploying
    | Finalizing
    | Unwinding(result: Outcome)
    | Returned(result: Outcome)

  datatype Runtime = Runtime(
    progress: Progress,
    routeActivated: bool,
    committed: bool,
    committedSlot: Option<CommandOutput>,
    candidateRemoved: bool)

  datatype Phase =
    | Claiming
    | Announcing
    | Planning
    | Racing
    | Grace
    | CleanupWindow
    | Deciding(outcome: Outcome)
    | Flushing(outcome: Outcome)
    | Reporting(outcome: Outcome)
    | Finished

  datatype Report = Complete(result: Json) | Fail(code: string)

  datatype State = State(
    phase: Phase,
    runtime: Runtime,
    cancelled: bool,
    sent: seq<Report>,
    // What happened on the way: the claim was announced, the policy refused, the deadline passed, the grace ran out.
    announced: bool,
    refused: Option<string>,
    overdue: bool,
    graceOver: bool)

  const INITIAL := State(Claiming, Runtime(Preparing, false, false, None, false), false, [], false, None, false, false)

  datatype ProcessorStep =
    | ClaimAnswered(claimed: bool)
    | ClaimedEventAnswered(delivered: bool)
    | PolicyChecked(policy: Result<(), string>)
    | Deadline
    | GraceElapses
    | WindowElapses
    | ResultTaken
    | FlagRechecked
    | LogsFlushed(delivered: bool)
    | TerminalSent

  datatype RuntimeStep =
    | Prepared
    | ReturnsEarly(result: Outcome)
    | DeployFails(code: string)
    | RouteActivates(output: CommandOutput)
    | CancellationSeen
    | FinalizeEnds(result: Outcome)
    | Unwinds

  /** The processor moves, the runtime moves while it is polled, or somebody cancels the command. */
  datatype Event = Process(step: ProcessorStep) | Poll(progress: RuntimeStep) | Cancel

  predicate Polled(phase: Phase) {
    phase.Racing? || phase.Grace? || phase.CleanupWindow?
  }

  predicate CanProcess(s: State, step: ProcessorStep) {
    match step
    case ClaimAnswered(_) => s.phase.Claiming?
    case ClaimedEventAnswered(_) => s.phase.Announcing?
    case PolicyChecked(_) => s.phase.Planning?
    // Both races poll the execution first, so a result that is there wins.
    case Deadline => s.phase.Racing? && !s.runtime.progress.Returned?
    case GraceElapses => s.phase.Grace? && !s.runtime.progress.Returned?
    case WindowElapses => s.phase.CleanupWindow? && !s.runtime.progress.Returned?
    case ResultTaken => Polled(s.phase) && s.runtime.progress.Returned?
    case FlagRechecked => s.phase.Deciding?
    case LogsFlushed(_) => s.phase.Flushing?
    case TerminalSent => s.phase.Reporting?
  }

  predicate CanPoll(r: Runtime, cancelled: bool, step: RuntimeStep) {
    match step
    case Prepared => r.progress.Preparing?
    case ReturnsEarly(_) => r.progress.Preparing?
    case DeployFails(_) => r.progress.Deploying?
    case RouteActivates(_) => r.progress.Deploying?
    // Behind the cutover, cancellation is seen but the deployment is awaited.
    case CancellationSeen => r.progress.Deploying? && cancelled
    case FinalizeEnds(_) => r.progress.Finalizing?
    case Unwinds => r.progress.Unwinding?
  }

  predicate Enabled(s: State, e: Event) {
    match e
    case Process(step) => CanProcess(s, step)
    case Poll(step) => Polled(s.phase) && CanPoll(s.runtime, s.cancelled, step)
    case Cancel => true
  }

  /** What `committed_output` returns, or the default. */
  function Slot(r: Runtime): CommandOutput {
    if r.committed && r.committedSlot.Some? then r.committedSlot.value else NO_OUTPUT
  }

  function AfterProcess(s: State, step: ProcessorStep): (r: State)
    requires CanProcess(s, step)
  {
    match step
    case ClaimAnswered(claimed) => s.(phase := if claimed then Announcing else Finished)
    case ClaimedEventAnswered(delivered) =>
      s.(phase := if delivered then Planning else Finished, announced := delivered)
    case PolicyChecked(policy) =>
      (match policy
       case Ok(_) => s.(phase := Racing)
       case Err(code) => s.(phase := Finished, refused := Some(code), sent := s.sent + [Fail(code)]))
    case Deadline =>
      if s.runtime.committed then s.(phase := Grace, overdue := true)
      else s.(phase := CleanupWindow, cancelled := true, overdue := true)
    case GraceElapses =>
      s.(phase := Deciding(Ok(Deferred(Slot(s.runtime), GraceElapsed))), cancelled := true, graceOver := true)
    case WindowElapses => s.(phase := Deciding(Err("runtime_timeout")))
    case ResultTaken =>
      (match s.phase
       case Racing => s.(phase := Deciding(s.runtime.progress.result))
       case Grace =>
         s.(phase := Deciding(
              if s.runtime.progress.result.Ok? then s.runtime.progress.result
              else Ok(Deferred(Slot(s.runtime), RuntimeError))))
       // Whatever the cleanup window yields, the outcome is the timeout.
       case _ => s.(phase := Deciding(Err("runtime_timeout"))))
    case FlagRechecked =>
      s.(phase := Flushing(
           if s.phase.outcome.Err? && s.runtime.committed then Ok(Deferred(Slot(s.runtime), RuntimeError))
           else s.phase.outcome))
    // Undelivered logs do not change the outcome.
    case LogsFlushed(_) => s.(phase := Reporting(s.phase.outcome))
    case TerminalSent =>
      s.(phase := Finished,
         sent := s.sent + [if s.phase.outcome.Ok? then Complete(s.phase.outcome.value.result)
                           else Fail(s.phase.outcome.error)])
  }

  function AfterPoll(r: Runtime, cancelled: bool, step: RuntimeStep): (next: Runtime)
    requires CanPoll(r, cancelled, step)
  {
    match step
    case Prepared => r.(progress := Deploying)
    case ReturnsEarly(result) => r.(progress := Returned(result))
    case DeployFails(code) => r.(progress := Unwinding(Err(code)))
    // The route mark, the output and the flag change within one poll.
    case RouteActivates(output) =>
      r.(progress := Finalizing, routeActivated := true, committedSlot := Some(output), committed := true)
    case CancellationSeen => r.(progress := Unwinding(Err("runtime_cancelled")))
    case FinalizeEnds(result) => r.(progress := Unwinding(result))
    case Unwinds =>
      r.(progress := Returned(r.progress.result),
         candidateRemoved := r.candidateRemoved || (r.progress.result.Err? && !r.routeActivated))
  }

  function Next(s: State, e: Event): (r: State)
    requires Enabled(s, e)
  {
    match e
    case Process(step) => AfterProcess(s, step)
    case Poll(step) => s.(runtime := AfterPoll(s.runtime, s.cancelled, step))
    case Cancel => s.(cancelled := true)
  }

  function Run(events: seq<Event>): (r: Option<State>) {
    if events == [] then Some(INITIAL)
    else
      var last := |events| - 1;
      match Run(events[..last])
      case None => None
      case Some(s) => if Enabled(s, events[last]) then Some(Next(s, events[last])) else None
  }

  // ------------------------------------------------------------ what every run keeps

  /** The runtime on its own: cutover, flag, stored output and candidate cleanup exclude or imply each other. */
  ghost predicate RuntimeSound(r: Runtime) {
    && (r.committed <==> r.routeActivated)
    && (r.committed ==> r.committedSlot.Some?)
    && (r.progress.Preparing? || r.progress.Deploying? ==> !r.committed)
    && (r.progress.Finalizing? ==> r.committed)
    && (r.candidateRemoved ==> !r.committed && r.progress.Returned?)
  }

  /** A success on its way to the report is what the runtime returned, or the committed output, deferred. */
  ghost predicate Earned(r: Runtime, graceOver: bool, result: Json) {
    || (r.progress.Returned? && r.progress.result.Ok? && r.progress.result.value.result == result)
    || (r.committed && result == Deferred(Slot(r), if graceOver then GraceElapsed else RuntimeError).result)
  }

  /** A failure on its way to the report is the timeout, if the deadline passed, and else what the runtime returned. */
  ghost predicate Failed(r: Runtime, overdue: bool, code: string) {
    if overdue then code == "runtime_timeout" else r.progress.Returned? && r.progress.result == Err(code)
  }

  ghost predicate OutcomeSound(s: State, outcome: Outcome) {
    match outcome
    case Ok(output) => Earned(s.runtime, s.graceOver, output.result)
    case Err(code) => Failed(s.runtime, s.overdue, code) && !s.graceOver
  }

  ghost predicate PhaseSound(s: State) {
    match s.phase
    case Claiming => Untouched(s) && !s.announced
    case Announcing => Untouched(s) && !s.announced
    case Planning => Untouched(s) && s.announced
    case Racing => s.sent == [] && s.announced && !s.overdue && !s.graceOver
    case Grace => s.sent == [] && s.announced && s.overdue && !s.graceOver && s.runtime.committed
    case CleanupWindow => s.sent == [] && s.announced && s.overdue && !s.graceOver && s.cancelled
    case Deciding(outcome) => s.sent == [] && s.announced && OutcomeSound(s, outcome)
    // From here on a failure stands against an unset flag, and nothing sets it any more.
    case Flushing(outcome) =>
      s.sent == [] && s.announced && OutcomeSound(s, outcome) && (outcome.Err? ==> !s.runtime.committed)
    case Reporting(outcome) =>
      s.sent == [] && s.announced && OutcomeSound(s, outcome) && (outcome.Err? ==> !s.runtime.committed)
    case Finished => |s.sent| == (if s.announced then 1 else 0) && (s.announced ==> ReportSound(s, s.sent[0]))
  }

  /** Before the race nothing runs. */
  ghost predicate Untouched(s: State) {
    s.runtime.progress.Preparing? && s.sent == [] && !s.overdue && !s.graceOver
  }

  ghost predicate ReportSound(s: State, report: Report) {
    match report
    case Complete(result) => Earned(s.runtime, s.graceOver, result)
    case Fail(code) => !s.runtime.committed && (s.refused == Some(code) || Failed(s.runtime, s.overdue, code))
  }

  ghost predicate Inv(s: State) {
    RuntimeSound(s.runtime) && PhaseSound(s)
  }

  lemma PollStep(r: Runtime, cancelled: bool, step: RuntimeStep)
    requires RuntimeSound(r) && CanPoll(r, cancelled, step)
    ensures RuntimeSound(AfterPoll(r, cancelled, step))
    ensures r.committed ==> AfterPoll(r, cancelled, step).committed
  {
  }

  lemma ProcessStep(s: State, step: ProcessorStep)
    requires Inv(s) && CanProcess(s, step)
    ensures PhaseSound(AfterProcess(s, step)) && AfterProcess(s, step).runtime == s.runtime
  {
    hide Deferred, Slot;
  }

  lemma Step(s: State, e: Event)
    requires Inv(s) && Enabled(s, e)
    ensures Inv(Next(s, e))
  {
    hide CanProcess, AfterProcess, CanPoll, AfterPoll, RuntimeSound;
    match e {
      case Process(step) => ProcessStep(s, step);
      case Poll(step) =>
        PollStep(s.runtime, s.cancelled, step);
        assert PhaseSound(s);
      case Cancel =>
    }
  }

  lemma {:induction false} Always(events: seq<Event>)
    requires Run(events).Some?
    ensures Inv(Run(events).value)
  {
    hide Next, Enabled, Inv;
    if events == [] {
      Initially();
    } else {
      var last := |events| - 1;
      Always(events[..last]);
      Step(Run(events[..last]).value, events[last]);
    }
  }

  lemma Initially()
    ensures Inv(INITIAL)
  {
  }

  // ------------------------------------------------------------ history

  lemma ProcessHistory(s: State, step: ProcessorStep)
    requires CanProcess(s, step)
    ensures var next := AfterProcess(s, step);
            && (next.graceOver <==> s.graceOver || step == GraceElapses)
            && (next.overdue <==> s.overdue || step == Deadline)
            && (next.refused != s.refused ==> next.refused.Some? && step == PolicyChecked(Err(next.refused.value)))
            && (next.announced != s.announced ==> step.ClaimedEventAnswered?)
            && (step.ClaimedEventAnswered? ==> next.announced == step.delivered && s.phase.Announcing?)
  {
    hide Deferred, Slot;
  }

  lemma ProcessSends(s: State, step: ProcessorStep)
    requires CanProcess(s, step)
    ensures s.sent <= AfterProcess(s, step).sent && AfterProcess(s, step).runtime == s.runtime
  {
    hide Deferred, Slot;
  }

  /** The history fields say which events there were. */
  lemma {:induction false} Histories(events: seq<Event>)
    requires Run(events).Some?
    ensures var s := Run(events).value;
            && (s.graceOver <==> Process(GraceElapses) in events)
            && (s.overdue <==> Process(Deadline) in events)
            && (s.refused.Some? ==> Process(PolicyChecked(Err(s.refused.value))) in events)
            && (s.announced <==> Process(ClaimedEventAnswered(true)) in events)
  {
    hide AfterProcess, CanProcess, AfterPoll, CanPoll, RuntimeSound;
    if events != [] {
      var last := |events| - 1;
      Histories(events[..last]);
      Always(events[..last]);
      var s := Run(events[..last]).value;
      if events[last].Process? {
        ProcessHistory(s, events[last].step);
      }
      assert events == events[..last] + [events[last]];
    }
  }

  // ------------------------------------------------------------ theorems

  /**
   Agreement, in every run, however deadline, cancellation, errors, grace and
   cleanup window interleave: at most one terminal report is sent; `fail` only
   if the deployment is not committed; and a committed one only completes.
   */
  lemma CommitAgreement(events: seq<Event>)
    requires Run(events).Some?
    ensures var s := Run(events).value;
            && |s.sent| <= 1
            && (forall code :: Fail(code) in s.sent ==> !s.runtime.committed)
            && (s.runtime.committed && s.sent != [] ==> s.sent[0].Complete?)
  {
    hide Run;
    Always(events);
  }

  lemma SentStays(s: State, e: Event)
    requires Inv(s) && Enabled(s, e)
    ensures s.sent <= Next(s, e).sent
    ensures s.runtime.committed ==> Next(s, e).runtime.committed
  {
    hide AfterProcess, CanProcess, AfterPoll, CanPoll, PhaseSound;
    match e {
      case Process(step) => ProcessSends(s, step);
      case Poll(step) => PollStep(s.runtime, s.cancelled, step);
      case Cancel =>
    }
  }

  lemma {:induction false} RunExtends(events: seq<Event>, more: seq<Event>)
    requires Run(events + more).Some?
    ensures Run(events).Some?
    ensures Run(events).value.sent <= Run(events + more).value.sent
    ensures Run(events).value.runtime.committed ==> Run(events + more).value.runtime.committed
  {
    hide Enabled, Next, Inv;
    if more == [] {
      assert events + more == events;
    } else {
      var last := |more| - 1;
      assert (events + more)[..|events + more| - 1] == events + more[..last];
      RunExtends(events, more[..last]);
      Always(events + more[..last]);
      SentStays(Run(events + more[..last]).value, more[last]);
    }
  }

  /** The flag is never taken back, so a run in which it was once set never sends `fail`, before or after. */
  lemma CommittedNeverFails(events: seq<Event>, more: seq<Event>)
    requires Run(events + more).Some?
    ensures Run(events).Some?
    ensures Run(events).value.runtime.committed ==> forall code :: Fail(code) !in Run(events + more).value.sent
    ensures forall code :: Fail(code) in Run(events).value.sent ==> !Run(events + more).value.runtime.committed
  {
    hide Run;
    RunExtends(events, more);
    CommitAgreement(events + more);
    var early, late := Run(events).value.sent, Run(events + more).value.sent;
    forall code | Fail(code) in early ensures Fail(code) in late {
    }
  }

  /** What a completion reports: the result of the runtime, or the committed output deferred for the right reason. */
  lemma CompletionIsEarned(events: seq<Event>)
    requires Run(events).Some?
    ensures var s := Run(events).value;
            forall result :: Complete(result) in s.sent ==>
              || (s.runtime.progress.Returned? && s.runtime.progress.result.Ok?
                  && s.runtime.progress.result.value.result == result)
              || (s.runtime.committed && s.runtime.committedSlot.Some?
                  && result == Deferred(s.runtime.committedSlot.value,
                                        if Process(GraceElapses) in events then GraceElapsed else RuntimeError).result)
  {
    hide Run, Deferred;
    Histories(events);
    Always(events);
    var s := Run(events).value;
    forall result | Complete(result) in s.sent ensures Earned(s.runtime, s.graceOver, result) {
      assert s.sent[0] == Complete(result);
    }
  }

  /** What a failure reports: the refused policy, the timeout once the deadline has passed, or the runtime's error. */
  lemma FailureIsHonest(events: seq<Event>)
    requires Run(events).Some?
    ensures var s := Run(events).value;
            forall code :: Fail(code) in s.sent ==>
              || Process(PolicyChecked(Err(code))) in events
              || (if Process(Deadline) in events then code == "runtime_timeout"
                  else s.runtime.progress.Returned? && s.runtime.progress.result == Err(code))
  {
    hide Run, Deferred;
    Histories(events);
    Always(events);
    var s := Run(events).value;
    forall code | Fail(code) in s.sent ensures ReportSound(s, Fail(code)) {
      assert s.sent[0] == Fail(code);
    }
  }

  /**
   A processor that is done has sent exactly one report, unless the claim was
   lost or the claimed event could not be delivered; then it has sent none.
   */
  lemma OneReportOnceAnnounced(events: seq<Event>)
    requires Run(events).Some? && Run(events).value.phase.Finished?
    ensures |Run(events).value.sent| == if Process(ClaimedEventAnswered(true)) in events then 1 else 0
  {
    hide Run;
    Histories(events);
    Always(events);
  }

  /** A container that was cut over to is never removed as a failed candidate. */
  lemma LiveCandidateIsKept(events: seq<Event>)
    requires Run(events).Some?
    ensures var r := Run(events).value.runtime;
            && (r.committed <==> r.routeActivated)
            && (r.committed ==> r.committedSlot.Some? && !r.candidateRemoved)
  {
    hide Run;
    Always(events);
  }
}
