/**
 Node drain: the shared lifecycle state (crates/sakala-agent-core/src/node_state.rs),
 written by the polling loop (crates/sakala-agent-core/src/scheduler/poller.rs)
 and by the tasks of `DrainNode` and `ResumeNode` commands
 (crates/sakala-agent-core/src/commands/dispatcher.rs).
 */
module Drain {
  import opened Wrappers
  import opened Scheduler

  datatype NodeLifecycleState = Active | Draining | Drained | Maintenance

  function ToU8(state: NodeLifecycleState): (value: nat) {
    match state
    case Active => 0
    case Draining => 1
    case Drained => 2
    case Maintenance => 3
  }

  function FromU8(value: nat): (state: NodeLifecycleState)
    ensures ToU8(state) == value || (value > 3 && state == Active)
  {
    if value == 1 then Draining else if value == 2 then Drained else if value == 3 then Maintenance else Active
  }

  class NodeLifecycle {
    var state: nat

    constructor WithState(initial: NodeLifecycleState)
      ensures state == ToU8(initial)
    {
      state := ToU8(initial);
    }

    method State() returns (current: NodeLifecycleState)
      ensures current == FromU8(state)
    {
      current := FromU8(state);
    }

    method Set(next: NodeLifecycleState)
      modifies this
      ensures FromU8(state) == next
    {
      state := ToU8(next);
    }

    method AcceptsWorkloadCommands() returns (accepts: bool)
      ensures accepts <==> FromU8(state) == Active
    {
      var current := State();
      accepts := current == Active;
    }
  }

  predicate IsNodeCommand(command: Command) {
    command.commandType.DrainNode? || command.commandType.ResumeNode?
  }

  // ------------------------------------------------------------ the machine

  /**
   Where the polling loop is. Checking the state, checking the number of tasks,
   and setting the state are three separate accesses; so are looking at the
   state for a command and starting the command.
   */
  datatype Pc =
    | Reaping
    | CheckingState
    | CheckingTasks
    | Promoting
    | Handling
    | Accepted(command: Command)

  datatype Task = Task(command: Command, ended: bool)

  datatype State = State(lifecycle: NodeLifecycleState, pc: Pc, tasks: map<TaskId, Task>)

  datatype Event =
    // The polling loop.
    | Reap(tasks: set<TaskId>)
    | CheckState
    | CheckTasks
    | Promote
    | Consider(command: Command)
    | Start(task: TaskId)
    | Defer
    | NextRound
    // A command task; it may also end without writing.
    | DrainWrites(task: TaskId)
    | ResumeWrites(task: TaskId)
    | Ends(task: TaskId)

  predicate RunningAs(s: State, task: TaskId, commandType: CommandType) {
    task in s.tasks && !s.tasks[task].ended && s.tasks[task].command.commandType == commandType
  }

  predicate Enabled(s: State, e: Event) {
    match e
    case Reap(done) => s.pc.Reaping? && forall t :: t in done ==> t in s.tasks && s.tasks[t].ended
    case CheckState => s.pc.CheckingState?
    case CheckTasks => s.pc.CheckingTasks?
    case Promote => s.pc.Promoting?
    case Consider(_) => s.pc.Handling?
    case Start(t) => s.pc.Accepted? && t !in s.tasks
    case Defer => s.pc.Accepted?
    case NextRound => s.pc.Handling?
    case DrainWrites(t) => RunningAs(s, t, DrainNode)
    case ResumeWrites(t) => RunningAs(s, t, ResumeNode)
    case Ends(t) => t in s.tasks && !s.tasks[t].ended
  }

  function Next(s: State, e: Event): (r: State)
    requires Enabled(s, e)
  {
    match e
    // Tasks that ended stay in the join set until the loop joins them.
    case Reap(done) => s.(tasks := s.tasks - done, pc := CheckingState)
    case CheckState => s.(pc := if s.lifecycle == Draining then CheckingTasks else Handling)
    case CheckTasks => s.(pc := if |s.tasks| == 0 then Promoting else Handling)
    case Promote => s.(lifecycle := Drained, pc := Handling)
    case Consider(command) =>
      if s.lifecycle != Active && !IsNodeCommand(command) then s else s.(pc := Accepted(command))
    case Start(t) => s.(tasks := s.tasks[t := Task(s.pc.command, false)], pc := Handling)
    case Defer => s.(pc := Handling)
    case NextRound => s.(pc := Reaping)
    case DrainWrites(_) => s.(lifecycle := Draining)
    case ResumeWrites(_) => s.(lifecycle := Active)
    case Ends(t) => s.(tasks := s.tasks[t := s.tasks[t].(ended := true)])
  }

  /** The state the control plane prescribes at startup is in place before the loop runs. */
  function Run(initial: NodeLifecycleState, events: seq<Event>): (r: Option<State>) {
    if events == [] then Some(State(initial, Reaping, map[]))
    else
      var last := |events| - 1;
      match Run(initial, events[..last])
      case None => None
      case Some(s) => if Enabled(s, events[last]) then Some(Next(s, events[last])) else None
  }

  // ------------------------------------------------------------ what every run keeps

  predicate Quiet(lifecycle: NodeLifecycleState) {
    lifecycle == Drained || lifecycle == Maintenance
  }

  ghost predicate Inv(s: State) {
    && (Quiet(s.lifecycle) ==> forall t :: t in s.tasks ==> IsNodeCommand(s.tasks[t].command))
    // A workload command that was let through saw Active; nothing makes the node quiet before it starts.
    && (s.pc.Accepted? && Quiet(s.lifecycle) ==> IsNodeCommand(s.pc.command))
    // Without tasks there is nobody who could have written since the state was checked.
    && (s.pc.CheckingTasks? && s.tasks == map[] ==> s.lifecycle == Draining)
    && (s.pc.Promoting? ==> s.tasks == map[] && s.lifecycle == Draining)
  }

  lemma Step(s: State, e: Event)
    requires Inv(s) && Enabled(s, e)
    ensures Inv(Next(s, e))
  {
    if e.CheckTasks? && |s.tasks| == 0 {
      assert s.tasks.Keys == {};
    }
    if e.Start? || e.Ends? {
      assert e.task in Next(s, e).tasks;
    }
  }

  lemma {:induction false} Always(initial: NodeLifecycleState, events: seq<Event>)
    requires Run(initial, events).Some?
    ensures Inv(Run(initial, events).value)
  {
    hide Inv, Enabled, Next;
    if events == [] {
      Initially(initial);
    } else {
      var last := |events| - 1;
      Always(initial, events[..last]);
      Step(Run(initial, events[..last]).value, events[last]);
    }
  }

  lemma Initially(initial: NodeLifecycleState)
    ensures Inv(State(initial, Reaping, map[]))
  {
  }

  /** Drain safety: on a drained node, or one in maintenance, only drain and resume commands are in flight. */
  lemma DrainSafety(initial: NodeLifecycleState, events: seq<Event>)
    requires Run(initial, events).Some?
    ensures var s := Run(initial, events).value;
            s.lifecycle == Drained || s.lifecycle == Maintenance ==>
              forall t :: t in s.tasks ==>
                s.tasks[t].command.commandType == DrainNode || s.tasks[t].command.commandType == ResumeNode
  {
    hide Run;
    Always(initial, events);
  }

  /** The promotion overwrites nothing but Draining: no task is left that could have resumed the node meanwhile. */
  lemma PromotionOverwritesOnlyDraining(initial: NodeLifecycleState, events: seq<Event>)
    requires Run(initial, events + [Promote]).Some?
    ensures Run(initial, events).Some?
    ensures var s := Run(initial, events).value; s.lifecycle == Draining && s.tasks == map[]
  {
    assert (events + [Promote])[..|events|] == events;
    Always(initial, events);
  }

  /**
   Over any stretch of a run: a node that became active was resumed by a command,
   one that became drained was promoted, and none enters maintenance.
   */
  lemma {:induction false} StateChangesHaveCauses(initial: NodeLifecycleState, events: seq<Event>, more: seq<Event>)
    requires Run(initial, events + more).Some?
    ensures Run(initial, events).Some?
    ensures var before, after := Run(initial, events).value.lifecycle, Run(initial, events + more).value.lifecycle;
            && (before != Active && after == Active ==> exists k :: 0 <= k < |more| && more[k].ResumeWrites?)
            && (before != Drained && after == Drained ==> exists k :: 0 <= k < |more| && more[k].Promote?)
            && (before != Draining && after == Draining ==> exists k :: 0 <= k < |more| && more[k].DrainWrites?)
            && (after == Maintenance ==> before == Maintenance)
    decreases |more|
  {
    hide Enabled;
    if more == [] {
      assert events + more == events;
    } else {
      var last := |more| - 1;
      assert (events + more)[..|events + more| - 1] == events + more[..last];
      StateChangesHaveCauses(initial, events, more[..last]);
      assert more[last] == (events + more)[|events + more| - 1];
      CauseOfStep(Run(initial, events + more[..last]).value, more[last]);
      forall k | 0 <= k < last ensures more[..last][k] == more[k] {
      }
    }
  }

  lemma CauseOfStep(s: State, e: Event)
    requires Enabled(s, e)
    ensures var after := Next(s, e).lifecycle;
            after == s.lifecycle
            || (after == Active && e.ResumeWrites?)
            || (after == Drained && e.Promote?)
            || (after == Draining && e.DrainWrites?)
  {
  }

  // ------------------------------------------------------------ what the loop does not hold up

  /**
   In every run: the loop goes on with a command exactly if the node is active or
   the command drains or resumes a node; any other it leaves pending.
   */
  lemma ConsiderDecision(initial: NodeLifecycleState, events: seq<Event>, command: Command)
    requires Run(initial, events + [Consider(command)]).Some?
    ensures Run(initial, events).Some?
    ensures var s := Run(initial, events).value;
            var goesOn := s.lifecycle == Active || command.commandType in {DrainNode, ResumeNode};
            Run(initial, events + [Consider(command)])
            == Some(if goesOn then s.(pc := Accepted(command)) else s)
  {
    assert (events + [Consider(command)])[..|events|] == events;
  }

  lemma OneMore(initial: NodeLifecycleState, events: seq<Event>, more: seq<Event>, e: Event, s: State)
      returns (longer: seq<Event>)
    requires Run(initial, events + more) == Some(s) && Enabled(s, e)
    ensures longer == more + [e] && Run(initial, events + longer) == Some(Next(s, e))
  {
    hide Enabled, Next;
    longer := more + [e];
    assert (events + longer)[..|events + longer| - 1] == events + more;
  }

  /** Steps of the loop before it gets to the commands of a poll. */
  function StepsToHandling(pc: Pc): (n: nat) {
    match pc
    case Reaping => 4
    case CheckingState => 3
    case CheckingTasks => 2
    case Promoting => 1
    case Accepted(_) => 1
    case Handling => 0
  }

  function LoopStep(pc: Pc): (e: Event) {
    match pc
    case Reaping => Reap({})
    case CheckingState => CheckState
    case CheckingTasks => CheckTasks
    case Promoting => Promote
    case Accepted(_) => Defer
    case Handling => NextRound
  }

  lemma LoopAdvances(s: State)
    requires !s.pc.Handling?
    ensures Enabled(s, LoopStep(s.pc))
    ensures Next(s, LoopStep(s.pc)).tasks == s.tasks
    ensures StepsToHandling(Next(s, LoopStep(s.pc)).pc) < StepsToHandling(s.pc)
  {
    assert s.tasks - {} == s.tasks;
  }

  /** The loop gets to the commands of the next poll, whatever it is at and whatever the tasks do not do. */
  lemma {:induction false} ReachesHandling(initial: NodeLifecycleState, events: seq<Event>, before: seq<Event>,
                                           s: State)
      returns (more: seq<Event>)
    requires Run(initial, events + before) == Some(s)
    ensures |more| <= |before| + StepsToHandling(s.pc) && Run(initial, events + more).Some?
    ensures var next := Run(initial, events + more).value; next.pc == Handling && next.tasks == s.tasks
    decreases StepsToHandling(s.pc)
  {
    hide Run, Next, Enabled;
    if s.pc.Handling? {
      more := before;
    } else {
      LoopAdvances(s);
      var on := OneMore(initial, events, before, LoopStep(s.pc), s);
      more := ReachesHandling(initial, events, on, Next(s, LoopStep(s.pc)));
    }
  }

  lemma NodeCommandSteps(s: State, command: Command, task: TaskId)
    requires s.pc.Handling? && task !in s.tasks && IsNodeCommand(command)
    ensures var s1, s2 := s.(pc := Accepted(command)), s.(tasks := s.tasks[task := Task(command, false)]);
            && Enabled(s, Consider(command)) && Next(s, Consider(command)) == s1
            && Enabled(s1, Start(task)) && Next(s1, Start(task)) == s2
            && (command.commandType == ResumeNode ==>
                  Enabled(s2, ResumeWrites(task)) && Next(s2, ResumeWrites(task)) == s2.(lifecycle := Active))
            && (command.commandType == DrainNode ==>
                  Enabled(s2, DrainWrites(task)) && Next(s2, DrainWrites(task)) == s2.(lifecycle := Draining))
  {
  }

  /** From every reachable state, a drain or a resume command can be carried out within seven steps. */
  lemma NodeCommandWorks(initial: NodeLifecycleState, events: seq<Event>, command: Command, task: TaskId)
      returns (more: seq<Event>)
    requires Run(initial, events).Some? && task !in Run(initial, events).value.tasks && IsNodeCommand(command)
    ensures |more| <= 7 && Run(initial, events + more).Some?
    ensures var s, next := Run(initial, events).value, Run(initial, events + more).value;
            && next.lifecycle == (if command.commandType == ResumeNode then Active else Draining)
            && next.tasks == s.tasks[task := Task(command, false)] && next.pc.Handling?
  {
    hide Run, Next, Enabled;
    assert events + [] == events;
    more := ReachesHandling(initial, events, [], Run(initial, events).value);
    var s := Run(initial, events + more).value;
    NodeCommandSteps(s, command, task);
    more := OneMore(initial, events, more, Consider(command), s);
    more := OneMore(initial, events, more, Start(task), s.(pc := Accepted(command)));
    var started := s.(tasks := s.tasks[task := Task(command, false)]);
    if command.commandType == ResumeNode {
      more := OneMore(initial, events, more, ResumeWrites(task), started);
    } else {
      more := OneMore(initial, events, more, DrainWrites(task), started);
    }
  }

  function Unended(s: State): (tasks: set<TaskId>) {
    set t | t in s.tasks && !s.tasks[t].ended
  }

  /** Tasks end without touching anything else. */
  lemma {:induction false} TasksEnd(initial: NodeLifecycleState, events: seq<Event>, more: seq<Event>, s: State)
      returns (longer: seq<Event>, next: State)
    requires Run(initial, events + more) == Some(s)
    ensures Run(initial, events + longer) == Some(next)
    ensures next.lifecycle == s.lifecycle && next.pc == s.pc && next.tasks.Keys == s.tasks.Keys
    ensures forall t :: t in next.tasks ==> next.tasks[t].ended
    decreases |Unended(s)|
  {
    hide Run;
    if t: TaskId :| t in Unended(s) {
      var on := OneMore(initial, events, more, Ends(t), s);
      assert Unended(Next(s, Ends(t))) == Unended(s) - {t};
      longer, next := TasksEnd(initial, events, on, Next(s, Ends(t)));
    } else {
      longer, next := more, s;
      forall t | t in s.tasks ensures s.tasks[t].ended {
        assert t !in Unended(s);
      }
    }
  }

  lemma PromotionSteps(s: State)
    requires s.pc.Handling? && s.lifecycle == Draining && forall t :: t in s.tasks ==> s.tasks[t].ended
    ensures var s1, s2 := s.(pc := Reaping), s.(tasks := map[], pc := CheckingState);
            && Enabled(s, NextRound) && Next(s, NextRound) == s1
            && Enabled(s1, Reap(s.tasks.Keys)) && Next(s1, Reap(s.tasks.Keys)) == s2
            && Enabled(s2, CheckState) && Next(s2, CheckState) == s2.(pc := CheckingTasks)
            && Enabled(s2.(pc := CheckingTasks), CheckTasks)
            && Next(s2.(pc := CheckingTasks), CheckTasks) == s2.(pc := Promoting)
            && Enabled(s2.(pc := Promoting), Promote)
            && Next(s2.(pc := Promoting), Promote) == State(Drained, Handling, map[])
  {
    assert s.tasks - s.tasks.Keys == map[];
  }

  /** From every reachable state a node can be drained: once its tasks have ended, the loop promotes it. */
  lemma DrainCompletes(initial: NodeLifecycleState, events: seq<Event>, command: Command, task: TaskId)
      returns (more: seq<Event>)
    requires Run(initial, events).Some? && task !in Run(initial, events).value.tasks
    requires command.commandType == DrainNode
    ensures Run(initial, events + more) == Some(State(Drained, Handling, map[]))
  {
    hide Run, Next, Enabled;
    var first := NodeCommandWorks(initial, events, command, task);
    var on, s := TasksEnd(initial, events, first, Run(initial, events + first).value);
    PromotionSteps(s);
    var reaped := s.(tasks := map[], pc := CheckingState);
    more := OneMore(initial, events, on, NextRound, s);
    more := OneMore(initial, events, more, Reap(s.tasks.Keys), s.(pc := Reaping));
    more := OneMore(initial, events, more, CheckState, reaped);
    more := OneMore(initial, events, more, CheckTasks, reaped.(pc := CheckingTasks));
    more := OneMore(initial, events, more, Promote, reaped.(pc := Promoting));
  }
}
