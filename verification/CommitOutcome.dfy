/**
 What a command reports in the end, read off the events of its run alone: what
 was announced and refused, when the deadline came, whether the route was
 activated, and what the runtime returned.
 */
module CommitOutcome {
  import opened Wrappers
  import opened Ports
  import opened Commit

  // ------------------------------------------------------------ reading the events

  function Refused(events: seq<Event>): (code: Option<string>) {
    if events == [] then None
    else
      match events[|events| - 1]
      case Process(PolicyChecked(Err(code))) => Some(code)
      case _ => Refused(events[..|events| - 1])
  }

  /** The output with which the route was activated: from then on the deployment is committed. */
  function CommittedOutput(events: seq<Event>): (output: Option<CommandOutput>) {
    if events == [] then None
    else
      match events[|events| - 1]
      case Poll(RouteActivates(output)) => Some(output)
      case _ => CommittedOutput(events[..|events| - 1])
  }

  /** The result the deployment is cleaning up for. */
  function Ending(events: seq<Event>): (result: Option<Outcome>) {
    if events == [] then None
    else
      match events[|events| - 1]
      case Poll(DeployFails(code)) => Some(Err(code))
      case Poll(CancellationSeen) => Some(Err("runtime_cancelled"))
      case Poll(FinalizeEnds(result)) => Some(result)
      case _ => Ending(events[..|events| - 1])
  }

  /** What the runtime has returned. */
  function Returned(events: seq<Event>): (result: Option<Outcome>) {
    if events == [] then None
    else
      match events[|events| - 1]
      case Poll(ReturnsEarly(result)) => Some(result)
      case Poll(Unwinds) => Ending(events[..|events| - 1])
      case _ => Returned(events[..|events| - 1])
  }

  /** The deadline came, and the route was not active then. */
  predicate LateBeforeCutover(events: seq<Event>) {
    events != []
    && var before := events[..|events| - 1];
       if events[|events| - 1] == Process(Deadline) then CommittedOutput(before).None? else LateBeforeCutover(before)
  }

  /** The output the route was activated with, reported as deferred. */
  function Repaired(events: seq<Event>, reason: DeferredReason): (report: Report) {
    var committed := CommittedOutput(events);
    Complete(Deferred(if committed.Some? then committed.value else NO_OUTPUT, reason).result)
  }

  /**
   The terminal report of an announced command: the refusal of its policy; the
   timeout, if the deadline came before the cutover; and else what the runtime
   returned. But once the route was activated no failure is reported: in its
   place, and when the grace elapsed, stands the committed output, deferred.
   */
  function ReportOf(events: seq<Event>): (report: Option<Report>) {
    var committed := CommittedOutput(events).Some?;
    if Refused(events).Some? then Some(Fail(Refused(events).value))
    else if LateBeforeCutover(events) then
      Some(if committed then Repaired(events, RuntimeError) else Fail("runtime_timeout"))
    else if Process(GraceElapses) in events then Some(Repaired(events, GraceElapsed))
    else
      match Returned(events)
      case None => None
      case Some(Ok(output)) => Some(Complete(output.result))
      case Some(Err(code)) => Some(if committed then Repaired(events, RuntimeError) else Fail(code))
  }

  // ------------------------------------------------------------ the machine keeps to it

  /** The runtime is where the events say. */
  ghost predicate RuntimeTold(r: Runtime, events: seq<Event>) {
    && r.committedSlot == CommittedOutput(events) && (r.committed <==> CommittedOutput(events).Some?)
    && (r.progress.Unwinding? ==> Ending(events) == Some(r.progress.result))
    && Returned(events) == (if r.progress.Returned? then Some(r.progress.result) else None)
    && (r.candidateRemoved <==>
          Poll(Unwinds) in events && Returned(events).Some? && Returned(events).value.Err? && !r.committed)
    && (Poll(Unwinds) in events ==> r.progress.Returned?)
  }

  /** What an outcome is reported as, now that nothing sets the flag any more. */
  function Reported(r: Runtime, outcome: Outcome): (report: Report) {
    match outcome
    case Ok(output) => Complete(output.result)
    case Err(code) => if r.committed then Complete(Deferred(Slot(r), RuntimeError).result) else Fail(code)
  }

  ghost predicate PhaseTold(s: State, events: seq<Event>) {
    var late, grace := LateBeforeCutover(events), Process(GraceElapses) in events;
    && (Refused(events).Some? ==> s.phase.Finished?)
    && match s.phase
       case Claiming => !late && !grace
       case Announcing => !late && !grace
       case Planning => !late && !grace
       case Racing => !late && !grace
       case Grace => !late && !grace && s.runtime.committed
       case CleanupWindow => late && !grace
       case Deciding(outcome) => ReportOf(events) == Some(Reported(s.runtime, outcome))
       case Flushing(outcome) =>
         (outcome.Err? ==> !s.runtime.committed) && ReportOf(events) == Some(Reported(s.runtime, outcome))
       case Reporting(outcome) =>
         (outcome.Err? ==> !s.runtime.committed) && ReportOf(events) == Some(Reported(s.runtime, outcome))
       case Finished => s.announced ==> ReportOf(events).Some? && s.sent == [ReportOf(events).value]
  }

  lemma Told(before: seq<Event>, e: Event)
    ensures var events := before + [e]; events[..|events| - 1] == before && events[|events| - 1] == e
    ensures forall x :: x in before + [e] <==> x in before || x == e
  {
  }

  lemma RuntimeStepTold(s: State, events: seq<Event>, e: Event)
    requires Enabled(s, e) && RuntimeSound(s.runtime)
    requires RuntimeTold(s.runtime, events)
    ensures RuntimeTold(Next(s, e).runtime, events + [e])
  {
    hide AfterProcess, CanProcess, AfterPoll, CanPoll, RuntimeSound;
    match e {
      case Process(step) =>
        ProcessSends(s, step);
        Told(events, e);
      case Poll(step) => PollStepTold(s.runtime, s.cancelled, events, step);
      case Cancel => Told(events, e);
    }
  }

  lemma PollStepTold(r: Runtime, cancelled: bool, events: seq<Event>, step: RuntimeStep)
    requires CanPoll(r, cancelled, step) && RuntimeSound(r) && RuntimeTold(r, events)
    ensures RuntimeTold(AfterPoll(r, cancelled, step), events + [Poll(step)])
  {
    Told(events, Poll(step));
  }

  /** Most events do not matter for the report. */
  lemma TellsNothing(events: seq<Event>, e: Event)
    requires !e.Poll? && e != Process(Deadline) && e != Process(GraceElapses)
    requires e.Process? && e.step.PolicyChecked? ==> e.step.policy.Ok?
    ensures ReportOf(events + [e]) == ReportOf(events) && Refused(events + [e]) == Refused(events)
    ensures LateBeforeCutover(events + [e]) == LateBeforeCutover(events)
    ensures Process(GraceElapses) in events + [e] <==> Process(GraceElapses) in events
  {
    Told(events, e);
    hide Deferred;
  }

  lemma PolicyTold(events: seq<Event>, code: string)
    ensures ReportOf(events + [Process(PolicyChecked(Err(code)))]) == Some(Fail(code))
  {
    Told(events, Process(PolicyChecked(Err(code))));
    hide Deferred;
  }

  lemma DeadlineTold(events: seq<Event>)
    ensures var after := events + [Process(Deadline)];
            && Refused(after) == Refused(events)
            && (LateBeforeCutover(after) <==> CommittedOutput(events).None?)
            && (Process(GraceElapses) in after <==> Process(GraceElapses) in events)
  {
    Told(events, Process(Deadline));
  }

  lemma GraceTold(events: seq<Event>)
    requires Refused(events).None? && !LateBeforeCutover(events)
    ensures var after := events + [Process(GraceElapses)];
            ReportOf(after) == Some(Repaired(events, GraceElapsed)) && Refused(after).None?
  {
    Told(events, Process(GraceElapses));
    hide Deferred;
  }

  lemma PollTold(events: seq<Event>, step: RuntimeStep)
    ensures var after := events + [Poll(step)];
            && Refused(after) == Refused(events)
            && LateBeforeCutover(after) == LateBeforeCutover(events)
            && (Process(GraceElapses) in after <==> Process(GraceElapses) in events)
  {
    Told(events, Poll(step));
  }

  lemma PhaseStepTold(s: State, events: seq<Event>, e: Event)
    requires Enabled(s, e) && RuntimeSound(s.runtime) && PhaseSound(s)
    requires RuntimeTold(s.runtime, events) && PhaseTold(s, events)
    ensures PhaseTold(Next(s, e), events + [e])
  {
    hide RuntimeSound, ReportOf, CommittedOutput, Returned, Refused, LateBeforeCutover, Deferred, Slot;
    match e {
      case Cancel => TellsNothing(events, e);
      case Poll(step) => PollTold(events, step);
      case Process(Deadline) => DeadlineTold(events);
      case Process(GraceElapses) =>
        GraceTold(events);
        RepairedIs(s.runtime, events, GraceElapsed);
      case Process(PolicyChecked(Err(code))) => PolicyTold(events, code);
      case Process(ResultTaken) =>
        TellsNothing(events, e);
        ResultTold(s, events);
      case Process(WindowElapses) =>
        TellsNothing(events, e);
        WindowTold(s, events);
      case Process(FlagRechecked) => TellsNothing(events, e);
      case _ => TellsNothing(events, e);
    }
  }

  lemma RepairedIs(r: Runtime, events: seq<Event>, reason: DeferredReason)
    requires RuntimeTold(r, events) && RuntimeSound(r) && r.committed
    ensures Repaired(events, reason) == Complete(Deferred(Slot(r), reason).result)
  {
    hide Deferred;
  }

  lemma ResultTold(s: State, events: seq<Event>)
    requires CanProcess(s, ResultTaken) && RuntimeSound(s.runtime)
    requires RuntimeTold(s.runtime, events) && PhaseTold(s, events)
    ensures var next := AfterProcess(s, ResultTaken);
            next.phase.Deciding? && ReportOf(events) == Some(Reported(s.runtime, next.phase.outcome))
  {
    hide RuntimeTold, Deferred, CommittedOutput, Returned, Refused, LateBeforeCutover;
    RuntimeSays(s.runtime, events);
    if s.runtime.committed {
      RepairedIs(s.runtime, events, RuntimeError);
    }
  }

  lemma WindowTold(s: State, events: seq<Event>)
    requires s.phase.CleanupWindow? && RuntimeSound(s.runtime)
    requires RuntimeTold(s.runtime, events) && PhaseTold(s, events)
    ensures ReportOf(events) == Some(Reported(s.runtime, Err("runtime_timeout")))
  {
    hide RuntimeTold, Deferred, CommittedOutput, Returned, Refused, LateBeforeCutover;
    RuntimeSays(s.runtime, events);
    if s.runtime.committed {
      RepairedIs(s.runtime, events, RuntimeError);
    }
  }

  lemma RuntimeSays(r: Runtime, events: seq<Event>)
    requires RuntimeTold(r, events)
    ensures r.committed <==> CommittedOutput(events).Some?
    ensures Returned(events) == (if r.progress.Returned? then Some(r.progress.result) else None)
  {
  }

  lemma {:induction false} RunTold(events: seq<Event>)
    requires Run(events).Some?
    ensures RuntimeTold(Run(events).value.runtime, events) && PhaseTold(Run(events).value, events)
  {
    hide Enabled, Next, RuntimeTold, PhaseTold, RuntimeSound, PhaseSound;
    if events == [] {
      NothingTold();
    } else {
      var last := |events| - 1;
      var before := events[..last];
      assert before + [events[last]] == events;
      RunTold(before);
      Always(before);
      RuntimeStepTold(Run(before).value, before, events[last]);
      PhaseStepTold(Run(before).value, before, events[last]);
    }
  }

  lemma NothingTold()
    ensures RuntimeTold(INITIAL.runtime, []) && PhaseTold(INITIAL, [])
  {
  }

  // ------------------------------------------------------------ theorems

  /** A command that is done has sent exactly the report its events call for. */
  lemma ReportIsDetermined(events: seq<Event>)
    requires Run(events).Some? && Run(events).value.phase.Finished?
    requires Process(ClaimedEventAnswered(true)) in events
    ensures ReportOf(events).Some? && Run(events).value.sent == [ReportOf(events).value]
  {
    hide Run, ReportOf;
    Histories(events);
    RunTold(events);
  }

  /**
   A deployment that ends well in time, or within the grace, is reported with its
   own output, and not as deferred.
   */
  lemma SuccessIsReportedAsIs(events: seq<Event>, output: CommandOutput)
    requires Run(events).Some? && Run(events).value.phase.Finished?
    requires Process(ClaimedEventAnswered(true)) in events && Refused(events).None?
    requires Returned(events) == Some(Ok(output))
    requires !LateBeforeCutover(events) && Process(GraceElapses) !in events
    ensures Run(events).value.sent == [Complete(output.result)]
  {
    hide Run, Deferred;
    ReportIsDetermined(events);
  }

  /** Who asked the runtime to stop: somebody from outside, or the processor when it stopped waiting for it. */
  lemma {:induction false} CancelledIff(events: seq<Event>)
    requires Run(events).Some?
    ensures Run(events).value.cancelled <==>
              Cancel in events || Process(GraceElapses) in events || LateBeforeCutover(events)
  {
    hide Enabled, Next, RuntimeTold, PhaseTold, CommittedOutput;
    if events != [] {
      var last := |events| - 1;
      var before := events[..last];
      assert before + [events[last]] == events;
      CancelledIff(before);
      RunTold(before);
      RuntimeSays(Run(before).value.runtime, before);
      CancelledStep(Run(before).value, events[last]);
      DeadlineOnce(Run(before).value, before, events[last]);
      Told(before, events[last]);
    }
  }

  lemma DeadlineOnce(s: State, events: seq<Event>, e: Event)
    requires Enabled(s, e) && PhaseTold(s, events)
    ensures e == Process(Deadline) ==> !LateBeforeCutover(events)
  {
    hide ReportOf, Reported, LateBeforeCutover, Refused;
  }

  lemma CancelledStep(s: State, e: Event)
    requires Enabled(s, e)
    ensures Next(s, e).cancelled <==>
              || s.cancelled || e == Cancel || e == Process(GraceElapses)
              || (e == Process(Deadline) && !s.runtime.committed)
  {
    hide Deferred, Slot, CanPoll, AfterPoll;
  }

  /** The candidate of a deployment that failed before its cutover, and no other, is removed when it is cleaned up. */
  lemma CandidateRemovedIff(events: seq<Event>)
    requires Run(events).Some?
    ensures Run(events).value.runtime.candidateRemoved <==>
              && Poll(Unwinds) in events && CommittedOutput(events).None?
              && Returned(events).Some? && Returned(events).value.Err?
  {
    hide Run;
    RunTold(events);
  }

  // ------------------------------------------------------------ every command comes to its end

  function StepsLeft(phase: Phase): (n: nat) {
    match phase
    case Claiming => 8
    case Announcing => 7
    case Planning => 6
    case Racing => 5
    case Grace => 4
    case CleanupWindow => 4
    case Deciding(_) => 3
    case Flushing(_) => 2
    case Reporting(_) => 1
    case Finished => 0
  }

  /** Every step of the processor brings it nearer to its end, and nothing else moves it back. */
  lemma StepAdvances(s: State, e: Event)
    requires Enabled(s, e)
    ensures StepsLeft(Next(s, e).phase) <= StepsLeft(s.phase)
    ensures e.Process? ==> StepsLeft(Next(s, e).phase) < StepsLeft(s.phase)
  {
    hide CanProcess, AfterProcess, CanPoll, AfterPoll;
    if e.Process? {
      ProcessAdvances(s, e.step);
    }
  }

  lemma ProcessAdvances(s: State, step: ProcessorStep)
    requires CanProcess(s, step)
    ensures StepsLeft(AfterProcess(s, step).phase) < StepsLeft(s.phase)
  {
    hide Deferred, Slot;
  }

  /** A step of the processor that is possible whatever the runtime does. */
  function NextStep(s: State): (step: ProcessorStep)
    requires !s.phase.Finished?
    ensures CanProcess(s, step)
  {
    match s.phase
    case Claiming => ClaimAnswered(true)
    case Announcing => ClaimedEventAnswered(true)
    case Planning => PolicyChecked(Ok(()))
    case Racing => if s.runtime.progress.Returned? then ResultTaken else Deadline
    case Grace => if s.runtime.progress.Returned? then ResultTaken else GraceElapses
    case CleanupWindow => if s.runtime.progress.Returned? then ResultTaken else WindowElapses
    case Deciding(_) => FlagRechecked
    case Flushing(_) => LogsFlushed(false)
    case Reporting(_) => TerminalSent
  }

  /**
   From every reachable state, even if the runtime never moves again, at most
   eight more steps of the processor bring the command to its end.
   */
  lemma {:induction false} AlwaysCanFinish(events: seq<Event>) returns (more: seq<Event>)
    requires Run(events).Some?
    ensures |more| <= StepsLeft(Run(events).value.phase) <= 8
    ensures forall k :: 0 <= k < |more| ==> more[k].Process?
    ensures Run(events + more).Some? && Run(events + more).value.phase.Finished?
    decreases StepsLeft(Run(events).value.phase)
  {
    hide Next, CanProcess;
    var s := Run(events).value;
    if s.phase.Finished? {
      more := [];
      assert events + more == events;
    } else {
      var e := Process(NextStep(s));
      Told(events, e);
      StepAdvances(s, e);
      var rest := AlwaysCanFinish(events + [e]);
      more := [e] + rest;
      assert events + more == events + [e] + rest;
    }
  }
}
