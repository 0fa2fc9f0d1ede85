/**
 The bounded command scheduler (`CommandExecutions` in
 crates/sakala-agent-core/src/scheduler/poller.rs and
 crates/sakala-agent-core/src/scheduler/metrics.rs).

 The runtime picks task ids and decides when a task ends; both are parameters
 here. Command and project ids are natural numbers.
 */
module Scheduler {
  import opened Wrappers

  type Uuid = nat
  type TaskId = nat

  const USIZE_MAX: nat := 0xFFFF_FFFF_FFFF_FFFF

  datatype CommandType =
    | DeployProject
    | RestartProject
    | StopProject
    | SleepProject
    | WakeProject
    | RefreshRoute
    | HealthCheck
    | InspectProject
    | ReconcileWorkload
    | CleanupRuntime
    | DrainNode
    | ResumeNode

  datatype Command = Command(id: Uuid, commandType: CommandType, projectId: Option<Uuid>)

  predicate IsLightweight(commandType: CommandType) {
    commandType.InspectProject? || commandType.HealthCheck? || commandType.RefreshRoute?
    || commandType.DrainNode? || commandType.ResumeNode?
  }

  datatype TaskMetadata = TaskMetadata(commandId: Uuid, projectId: Option<Uuid>, lightweight: bool)

  function MetadataOf(command: Command): (m: TaskMetadata) {
    TaskMetadata(command.id, command.projectId, IsLightweight(command.commandType))
  }

  /** What joining a task yields: it ran to its end, or it panicked or was aborted. */
  datatype Joined = Finished(task: TaskId) | Crashed(task: TaskId)

  // ------------------------------------------------------------ what a task set implies

  function Light(metadata: map<TaskId, TaskMetadata>): (tasks: set<TaskId>) {
    set t | t in metadata && metadata[t].lightweight
  }

  function Heavy(metadata: map<TaskId, TaskMetadata>): (tasks: set<TaskId>) {
    set t | t in metadata && !metadata[t].lightweight
  }

  ghost function Projects(metadata: map<TaskId, TaskMetadata>): (projects: set<Uuid>) {
    set t | t in metadata && metadata[t].projectId.Some? :: metadata[t].projectId.value
  }

  function ProjectOf(projectId: Option<Uuid>): (projects: set<Uuid>) {
    if projectId.Some? then {projectId.value} else {}
  }

  function Without(metadata: map<TaskId, TaskMetadata>, commandId: Uuid): (rest: map<TaskId, TaskMetadata>) {
    map t | t in metadata && metadata[t].commandId != commandId :: metadata[t]
  }

  predicate OneTaskPerProject(metadata: map<TaskId, TaskMetadata>) {
    forall t, u ::
      (t in metadata && u in metadata && metadata[t].projectId.Some?
       && metadata[t].projectId == metadata[u].projectId) ==> t == u
  }

  lemma AddLight(metadata: map<TaskId, TaskMetadata>, t: TaskId, m: TaskMetadata)
    requires t !in metadata
    ensures Light(metadata[t := m]) == Light(metadata) + if m.lightweight then {t} else {}
    ensures Heavy(metadata[t := m]) == Heavy(metadata) + if m.lightweight then {} else {t}
  {
  }

  lemma AddCounts(metadata: map<TaskId, TaskMetadata>, t: TaskId, m: TaskMetadata)
    requires t !in metadata
    ensures |Light(metadata[t := m])| == |Light(metadata)| + if m.lightweight then 1 else 0
    ensures |Heavy(metadata[t := m])| == |Heavy(metadata)| + if m.lightweight then 0 else 1
    ensures |metadata[t := m]| == |metadata| + 1
  {
    AddLight(metadata, t, m);
    assert t !in Light(metadata) && t !in Heavy(metadata);
    hide Light, Heavy;
    if m.lightweight {
      assert Heavy(metadata[t := m]) == Heavy(metadata);
    } else {
      assert Light(metadata[t := m]) == Light(metadata);
    }
  }

  lemma RemoveCounts(metadata: map<TaskId, TaskMetadata>, t: TaskId)
    requires t in metadata
    ensures |Light(metadata)| == |Light(metadata - {t})| + if metadata[t].lightweight then 1 else 0
    ensures |Heavy(metadata)| == |Heavy(metadata - {t})| + if metadata[t].lightweight then 0 else 1
    ensures |metadata| == |metadata - {t}| + 1
  {
    var rest := metadata - {t};
    assert rest[t := metadata[t]] == metadata;
    AddCounts(rest, t, metadata[t]);
  }

  lemma AddProjects(metadata: map<TaskId, TaskMetadata>, t: TaskId, m: TaskMetadata)
    requires t !in metadata
    ensures Projects(metadata[t := m]) == Projects(metadata) + ProjectOf(m.projectId)
  {
    var more := metadata[t := m];
    forall p | p in Projects(metadata) ensures p in Projects(more) {
      var u :| u in metadata && metadata[u].projectId.Some? && metadata[u].projectId.value == p;
      assert more[u].projectId.value == p;
    }
    if m.projectId.Some? {
      assert more[t].projectId.value in Projects(more);
    }
  }

  lemma StartsOnFreeProject(metadata: map<TaskId, TaskMetadata>, t: TaskId, m: TaskMetadata)
    requires t !in metadata && OneTaskPerProject(metadata)
    requires m.projectId.Some? ==> m.projectId.value !in Projects(metadata)
    ensures OneTaskPerProject(metadata[t := m])
  {
    forall u | u in metadata && metadata[u].projectId.Some? ensures metadata[u].projectId != m.projectId {
      assert metadata[u].projectId.value in Projects(metadata);
    }
  }

  lemma RemoveProjects(metadata: map<TaskId, TaskMetadata>, t: TaskId)
    requires t in metadata
    ensures var project := ProjectOf(metadata[t].projectId);
            && Projects(metadata) - project <= Projects(metadata - {t}) <= Projects(metadata)
            && (OneTaskPerProject(metadata) ==> Projects(metadata - {t}) == Projects(metadata) - project)
  {
    var rest := metadata - {t};
    assert rest[t := metadata[t]] == metadata;
    AddProjects(rest, t, metadata[t]);
  }

  /** Nothing is remembered of a task that is gone, and what is remembered is right. */
  ghost predicate Remembers(metadata: map<TaskId, TaskMetadata>, tasks: map<TaskId, Command>) {
    forall t :: t in metadata ==> t in tasks && metadata[t] == MetadataOf(tasks[t])
  }

  function Entries(metadata: map<TaskId, TaskMetadata>, commandId: Uuid): (tasks: set<TaskId>) {
    set t | t in metadata && metadata[t].commandId == commandId
  }

  lemma NothingToRelease(metadata: map<TaskId, TaskMetadata>, commandId: Uuid)
    requires Entries(metadata, commandId) == {}
    ensures Without(metadata, commandId) == metadata
    ensures forall t :: t in metadata ==> metadata[t].commandId != commandId
  {
    assert forall t :: t in metadata ==> t !in Entries(metadata, commandId);
  }

  /** A command id names one command. */
  ghost predicate Identified(tasks: map<TaskId, Command>, command: Command) {
    forall t :: t in tasks && tasks[t].id == command.id ==> tasks[t] == command
  }

  /**
   When ids name commands: the busy projects are those of the tasks, each task
   with a project is accounted for, and no project has two.
   */
  ghost predicate ProjectsExact(busy: set<Uuid>, metadata: map<TaskId, TaskMetadata>, tasks: map<TaskId, Command>) {
    && busy == Projects(metadata)
    && OneTaskPerProject(metadata)
    && (forall t :: t in tasks && tasks[t].projectId.Some? ==> t in metadata)
    && forall t :: t in tasks ==> Identified(tasks, tasks[t])
  }

  /**
   The busy projects are those of the entries, except that projects of entries
   of one command may already have been freed.
   */
  ghost predicate BusyExcept(busy: set<Uuid>, metadata: map<TaskId, TaskMetadata>, commandId: Uuid) {
    && busy <= Projects(metadata)
    && OneTaskPerProject(metadata)
    && forall t :: t in metadata && metadata[t].projectId.Some? && metadata[t].projectId.value !in busy ==>
         metadata[t].commandId == commandId
  }

  lemma StartStaysExact(busy: set<Uuid>, metadata: map<TaskId, TaskMetadata>, tasks: map<TaskId, Command>,
                        t: TaskId, command: Command)
    requires ProjectsExact(busy, metadata, tasks) && Remembers(metadata, tasks) && t !in tasks
    requires Identified(tasks, command) && ProjectOf(command.projectId) !! busy
    ensures ProjectsExact(busy + ProjectOf(command.projectId), metadata[t := MetadataOf(command)], tasks[t := command])
  {
    AddProjects(metadata, t, MetadataOf(command));
    StartsOnFreeProject(metadata, t, MetadataOf(command));
    hide Projects, OneTaskPerProject;
    var more := tasks[t := command];
    forall u | u in more ensures Identified(more, more[u]) {
      if u != t {
        assert Identified(tasks, tasks[u]);
      }
    }
  }

  lemma ReleaseStaysBusy(busy: set<Uuid>, metadata: map<TaskId, TaskMetadata>, t: TaskId, commandId: Uuid)
    requires t in metadata && metadata[t].commandId == commandId && BusyExcept(busy, metadata, commandId)
    ensures BusyExcept(busy - ProjectOf(metadata[t].projectId), metadata - {t}, commandId)
  {
    RemoveProjects(metadata, t);
    hide Projects;
  }

  lemma AllBusy(busy: set<Uuid>, metadata: map<TaskId, TaskMetadata>, commandId: Uuid)
    requires BusyExcept(busy, metadata, commandId)
    requires forall t :: t in metadata ==> metadata[t].commandId != commandId
    ensures busy == Projects(metadata)
  {
  }

  /** Before the release, only the project of the finished task itself has been freed. */
  lemma FinishStaysBusy(busy: set<Uuid>, metadata: map<TaskId, TaskMetadata>, tasks: map<TaskId, Command>, t: TaskId)
    requires ProjectsExact(busy, metadata, tasks) && Remembers(metadata, tasks) && t in tasks
    ensures BusyExcept(busy - ProjectOf(tasks[t].projectId), metadata, tasks[t].id)
  {
    var left := busy - ProjectOf(tasks[t].projectId);
    forall u | u in metadata && metadata[u].projectId.Some? && metadata[u].projectId.value !in left
      ensures metadata[u].commandId == tasks[t].id
    {
      assert metadata[u].projectId.value in Projects(metadata);
    }
  }

  /** The project of a task that is still there is not given up with another task of the same id. */
  lemma FinishKeepsOthers(busy: set<Uuid>, metadata: map<TaskId, TaskMetadata>, tasks: map<TaskId, Command>, t: TaskId)
    requires ProjectsExact(busy, metadata, tasks) && Remembers(metadata, tasks) && t in tasks
    ensures var rest := Without(metadata, tasks[t].id);
            && OneTaskPerProject(rest) && Remembers(rest, tasks - {t})
            && ProjectsExact(Projects(rest), rest, tasks - {t})
  {
    var rest := Without(metadata, tasks[t].id);
    forall u | u in tasks - {t} && tasks[u].projectId.Some? ensures u in rest {
      assert Identified(tasks, tasks[t]);
    }
    forall u | u in tasks - {t} ensures Identified(tasks - {t}, tasks[u]) {
      assert Identified(tasks, tasks[u]);
    }
    forall u | u in rest ensures u in tasks - {t} {
    }
  }

  lemma CrashStaysExact(busy: set<Uuid>, metadata: map<TaskId, TaskMetadata>, tasks: map<TaskId, Command>, t: TaskId)
    requires ProjectsExact(busy, metadata, tasks) && Remembers(metadata, tasks) && t in tasks
    ensures ProjectsExact(if t in metadata then busy - ProjectOf(metadata[t].projectId) else busy,
                          metadata - {t}, tasks - {t})
  {
    if t in metadata {
      RemoveProjects(metadata, t);
    } else {
      assert metadata - {t} == metadata;
    }
    hide Projects;
    forall u | u in tasks - {t} ensures Identified(tasks - {t}, tasks[u]) {
      assert Identified(tasks, tasks[u]);
    }
  }

  /** `usize::saturating_sub(1)`. */
  function SaturatingDecrement(n: nat): nat {
    if n == 0 then 0 else n - 1
  }

  // ------------------------------------------------------------ metrics

  class SchedulerMetrics {
    var activeCommands: nat
    var capacityWaitingCommands: nat

    constructor ()
      ensures activeCommands == 0 && capacityWaitingCommands == 0
    {
      activeCommands, capacityWaitingCommands := 0, 0;
    }

    method CommandStarted()
      modifies this`activeCommands
      ensures activeCommands == old(activeCommands) + 1
    {
      activeCommands := activeCommands + 1;
    }

    /** `fetch_sub` wraps around below zero. */
    method CommandFinished()
      modifies this`activeCommands
      ensures activeCommands == if old(activeCommands) == 0 then USIZE_MAX else old(activeCommands) - 1
    {
      activeCommands := if activeCommands == 0 then USIZE_MAX else activeCommands - 1;
    }

    method BeginPoll()
      modifies this`capacityWaitingCommands
      ensures capacityWaitingCommands == 0
    {
      capacityWaitingCommands := 0;
    }

    method CommandDeferred()
      modifies this`capacityWaitingCommands
      ensures capacityWaitingCommands == old(capacityWaitingCommands) + 1
    {
      capacityWaitingCommands := capacityWaitingCommands + 1;
    }
  }

  // ------------------------------------------------------------ the scheduler

  class CommandExecutions {
    const heavyLimit: nat
    const lightweightLimit: nat := 1
    var activeHeavy: nat
    var activeLightweight: nat
    var activeProjects: set<Uuid>
    const metrics: SchedulerMetrics
    var taskMetadata: map<TaskId, TaskMetadata>
    /** The join set: the tasks not joined yet, with the command each one runs. */
    var tasks: map<TaskId, Command>

    constructor (limit: nat, metrics: SchedulerMetrics)
      requires metrics.activeCommands == 0
      ensures heavyLimit == limit && this.metrics == metrics
      ensures Valid() && Consistent() && tasks == map[]
    {
      heavyLimit := limit;
      this.metrics := metrics;
      activeHeavy, activeLightweight := 0, 0;
      activeProjects := {};
      taskMetadata, tasks := map[], map[];
    }

    /** The counters are what the metadata implies. */
    ghost predicate Counted()
      reads this, metrics
    {
      && activeHeavy == |Heavy(taskMetadata)| <= heavyLimit
      && activeLightweight == |Light(taskMetadata)| <= lightweightLimit
      && metrics.activeCommands == |taskMetadata|
    }

    /**
     What holds whatever ids commands carry: no counter is off, no limit is
     exceeded, and nothing is remembered of a task that is gone.
     */
    ghost predicate Valid()
      reads this, metrics
    {
      Counted() && activeProjects <= Projects(taskMetadata) && Remembers(taskMetadata, tasks)
    }

    /** What holds moreover when ids name commands. */
    ghost predicate Consistent()
      reads this
    {
      ProjectsExact(activeProjects, taskMetadata, tasks)
    }

    predicate HasSlot(lightweight: bool)
      reads this
    {
      if lightweight then activeLightweight < lightweightLimit else activeHeavy < heavyLimit
    }

    /** The accepting half of `try_start`: the slot and the project are taken, and a task is spawned. */
    method Occupy(command: Command, task: TaskId)
      requires Valid() && task !in tasks && HasSlot(IsLightweight(command.commandType))
      modifies this, metrics`activeCommands
      ensures Valid()
      ensures tasks == old(tasks)[task := command]
      ensures taskMetadata == old(taskMetadata)[task := MetadataOf(command)]
      ensures activeProjects == old(activeProjects) + ProjectOf(command.projectId)
    {
      hide Projects, Light, Heavy, Remembers;
      StartRemembers(taskMetadata, tasks, task, command);
      AddCounts(taskMetadata, task, MetadataOf(command));
      AddProjects(taskMetadata, task, MetadataOf(command));
      hide ProjectOf;
      assert activeProjects + ProjectOf(command.projectId) <= Projects(taskMetadata[task := MetadataOf(command)]);
      activeProjects := activeProjects + ProjectOf(command.projectId);
      if IsLightweight(command.commandType) {
        activeLightweight := activeLightweight + 1;
      } else {
        activeHeavy := activeHeavy + 1;
      }
      metrics.CommandStarted();
      tasks := tasks[task := command];
      taskMetadata := taskMetadata[task := MetadataOf(command)];
    }

    /** Starts the command as a task, unless its class is at its limit or its project is busy. */
    method TryStart(command: Command, task: TaskId) returns (started: bool)
      requires Valid() && task !in tasks
      modifies this, metrics`activeCommands
      ensures Valid()
      ensures started <==>
                && (if command.commandType in {InspectProject, HealthCheck, RefreshRoute, DrainNode, ResumeNode}
                    then old(activeLightweight) < 1 else old(activeHeavy) < heavyLimit)
                && (command.projectId.Some? ==> command.projectId.value !in old(activeProjects))
      ensures tasks == if started then old(tasks)[task := command] else old(tasks)
      ensures taskMetadata ==
              if started then old(taskMetadata)[task := MetadataOf(command)] else old(taskMetadata)
      ensures old(Consistent() && Identified(tasks, command)) ==> Consistent()
      ensures old(Exact(taskMetadata, tasks) && IdIsNew(tasks, command)) ==> Exact(taskMetadata, tasks)
    {
      hide ProjectsExact, Identified, Projects, Light, Heavy, Exact, IdIsNew;
      var lightweight := IsLightweight(command.commandType);
      if (lightweight && activeLightweight >= lightweightLimit)
         || (!lightweight && activeHeavy >= heavyLimit)
         || (command.projectId.Some? && command.projectId.value in activeProjects)
      {
        return false;
      }
      if Consistent() && Identified(tasks, command) {
        StartStaysExact(activeProjects, taskMetadata, tasks, task, command);
      }
      if Exact(taskMetadata, tasks) && IdIsNew(tasks, command) {
        StartIsExact(taskMetadata, tasks, task, command);
      }
      Occupy(command, task);
      return true;
    }

    /** The counters and the project of one removed entry are given back; no subtraction runs below zero. */
    method ReleaseMetadata(task: TaskId)
      requires Counted() && task in taskMetadata
      modifies this`taskMetadata, this`activeProjects, this`activeHeavy, this`activeLightweight,
               metrics`activeCommands
      ensures Counted() && taskMetadata == old(taskMetadata) - {task}
      ensures activeProjects == old(activeProjects)
                                - ProjectOf(old(taskMetadata)[task].projectId)
      ensures metrics.activeCommands == old(metrics.activeCommands) - 1
      ensures activeHeavy + activeLightweight == old(activeHeavy + activeLightweight) - 1
    {
      RemoveCounts(taskMetadata, task);
      var m := taskMetadata[task];
      taskMetadata := taskMetadata - {task};
      if m.projectId.Some? {
        activeProjects := activeProjects - {m.projectId.value};
      }
      if m.lightweight {
        activeLightweight := SaturatingDecrement(activeLightweight);
      } else {
        activeHeavy := SaturatingDecrement(activeHeavy);
      }
      metrics.CommandFinished();
    }

    /** Frees every entry of the command, in whatever order the map yields them. */
    method ReleaseTask(commandId: Uuid)
      requires Counted() && activeProjects <= Projects(taskMetadata)
      modifies this`taskMetadata, this`activeProjects, this`activeHeavy, this`activeLightweight,
               metrics`activeCommands
      ensures Counted() && activeProjects <= Projects(taskMetadata)
      ensures taskMetadata == Without(old(taskMetadata), commandId)
      ensures old(BusyExcept(activeProjects, taskMetadata, commandId)) ==>
                activeProjects == Projects(taskMetadata) && OneTaskPerProject(taskMetadata)
    {
      hide Projects, OneTaskPerProject, Light, Heavy;
      var taskIds := Entries(taskMetadata, commandId);
      while taskIds != {}
        invariant Counted() && activeProjects <= Projects(taskMetadata)
        invariant taskIds == Entries(taskMetadata, commandId)
        invariant Without(taskMetadata, commandId) == Without(old(taskMetadata), commandId)
        invariant old(BusyExcept(activeProjects, taskMetadata, commandId)) ==>
                    BusyExcept(activeProjects, taskMetadata, commandId)
        decreases |taskIds|
      {
        var t :| t in taskIds;
        RemoveProjects(taskMetadata, t);
        if BusyExcept(activeProjects, taskMetadata, commandId) {
          ReleaseStaysBusy(activeProjects, taskMetadata, t, commandId);
        }
        taskIds := taskIds - {t};
        ReleaseMetadata(t);
      }
      NothingToRelease(taskMetadata, commandId);
      if BusyExcept(activeProjects, taskMetadata, commandId) {
        AllBusy(activeProjects, taskMetadata, commandId);
      }
    }

    /** One joined task in `reap_completed`. */
    method ReapOne(joined: Joined)
      requires Valid() && joined.task in tasks
      modifies this, metrics`activeCommands
      ensures Valid() && tasks == old(tasks) - {joined.task}
      ensures taskMetadata == MetadataAfter(old(taskMetadata), old(tasks), joined)
      ensures old(Consistent()) ==> Consistent()
    {
      hide Projects, ProjectsExact, BusyExcept, Without, Light, Heavy, Remembers;
      var command := tasks[joined.task];
      tasks := tasks - {joined.task};
      match joined {
        case Finished(task) =>
          FinishRemembers(taskMetadata, old(tasks), task);
          if old(Consistent()) {
            FinishStaysBusy(activeProjects, taskMetadata, old(tasks), task);
            FinishKeepsOthers(activeProjects, taskMetadata, old(tasks), task);
          }
          if command.projectId.Some? {
            activeProjects := activeProjects - {command.projectId.value};
          }
          assert activeProjects == old(activeProjects) - ProjectOf(command.projectId);
          ReleaseTask(command.id);
        case Crashed(task) =>
          CrashRemembers(taskMetadata, old(tasks), task);
          if old(Consistent()) {
            CrashStaysExact(activeProjects, taskMetadata, old(tasks), task);
          }
          if task in taskMetadata {
            RemoveProjects(taskMetadata, task);
            ReleaseMetadata(task);
          }
      }
    }

    /** `reap_completed`: `done` are the tasks that have ended, in the order they are joined. */
    method ReapCompleted(done: seq<Joined>)
      requires Valid() && Joinable(done, tasks)
      modifies this, metrics`activeCommands
      ensures Valid() && tasks == old(tasks) - TasksOf(done)
      ensures old(Consistent()) ==> Consistent()
      ensures old(Exact(taskMetadata, tasks)) ==> Exact(taskMetadata, tasks)
    {
      hide Remembers, ProjectsExact, Projects, Light, Heavy, Exact, MetadataAfter, TasksOf;
      JoinsNone(done);
      for i := 0 to |done|
        invariant Valid() && tasks == old(tasks) - TasksOf(done[..i])
        invariant old(Consistent()) ==> Consistent()
        invariant old(Exact(taskMetadata, tasks)) ==> Exact(taskMetadata, tasks)
      {
        JoinsNext(done, i);
        if Exact(taskMetadata, tasks) {
          JoinStaysExact(taskMetadata, tasks, done[i]);
        }
        ReapOne(done[i]);
      }
      assert done[..|done|] == done;
    }

    /** One joined task in `wait_for_tasks`, which leaves the project to the release of the entry. */
    method AwaitOne(joined: Joined)
      requires Valid() && joined.task in tasks
      modifies this, metrics`activeCommands
      ensures Valid() && tasks == old(tasks) - {joined.task}
    {
      hide Projects, Without, Light, Heavy, Remembers;
      var command := tasks[joined.task];
      tasks := tasks - {joined.task};
      match joined {
        case Finished(task) =>
          FinishRemembers(taskMetadata, old(tasks), task);
          ReleaseTask(command.id);
        case Crashed(task) =>
          CrashRemembers(taskMetadata, old(tasks), task);
          if task in taskMetadata {
            RemoveProjects(taskMetadata, task);
            ReleaseMetadata(task);
          }
      }
    }

    method WaitForTasks(done: seq<Joined>)
      requires Valid() && Joinable(done, tasks)
      modifies this, metrics`activeCommands
      ensures Valid() && tasks == old(tasks) - TasksOf(done)
    {
      hide Remembers, Projects, Light, Heavy;
      JoinsNone(done);
      for i := 0 to |done|
        invariant Valid() && tasks == old(tasks) - TasksOf(done[..i])
      {
        JoinsNext(done, i);
        AwaitOne(done[i]);
      }
      assert done[..|done|] == done;
    }

    /**
     `cancel_and_wait`: `inTime` are the tasks that end within the grace, `late`
     those that end only once everything left is aborted. Afterwards nothing is
     left: no task, no entry, no busy project, and every counter at zero,
     whatever ids the commands carried.
     */
    method CancelAndWait(inTime: seq<Joined>, late: seq<Joined>) returns (cancelled: set<TaskId>, aborted: set<TaskId>)
      requires Valid() && Joinable(inTime + late, tasks) && TasksOf(inTime + late) == tasks.Keys
      modifies this, metrics`activeCommands
      ensures tasks == map[] && taskMetadata == map[]
      ensures activeHeavy == 0 && activeLightweight == 0 && activeProjects == {}
      ensures metrics.activeCommands == 0
      ensures cancelled == old(taskMetadata).Keys && aborted == TasksOf(late)
    {
      cancelled, aborted := taskMetadata.Keys, {};
      JoinableParts(inTime, late, tasks);
      WaitForTasks(inTime);
      assert tasks.Keys == TasksOf(late);
      if tasks == map[] {
        NothingLeft();
        return;
      }
      aborted := tasks.Keys;
      WaitForTasks(late);
      assert tasks.Keys == {};
      NothingLeft();
    }

    lemma NothingLeft()
      requires Valid() && tasks.Keys == {}
      ensures tasks == map[] && taskMetadata == map[]
      ensures activeHeavy == 0 && activeLightweight == 0 && activeProjects == {} && metrics.activeCommands == 0
    {
      assert taskMetadata.Keys == {};
      assert Heavy(taskMetadata) == {} && Light(taskMetadata) == {} && Projects(taskMetadata) == {};
    }
  }

  // ------------------------------------------------------------ joining tasks

  function TasksOf(done: seq<Joined>): (tasks: set<TaskId>) {
    set i | 0 <= i < |done| :: done[i].task
  }

  /** Each of the tasks is there and is joined once. */
  ghost predicate Joinable(done: seq<Joined>, tasks: map<TaskId, Command>) {
    && (forall i :: 0 <= i < |done| ==> done[i].task in tasks)
    && forall i, j :: 0 <= i < j < |done| ==> done[i].task != done[j].task
  }

  lemma JoinsNone(done: seq<Joined>)
    ensures TasksOf(done[..0]) == {}
  {
  }

  lemma JoinsNext(done: seq<Joined>, i: nat)
    requires i < |done|
    ensures TasksOf(done[..i + 1]) == TasksOf(done[..i]) + {done[i].task}
    ensures (forall j, k :: 0 <= j < k < |done| ==> done[j].task != done[k].task) ==>
              done[i].task !in TasksOf(done[..i])
  {
    assert done[..i + 1] == done[..i] + [done[i]];
    forall t | t in TasksOf(done[..i]) + {done[i].task} ensures t in TasksOf(done[..i + 1]) {
      if t in TasksOf(done[..i]) {
        var j :| 0 <= j < i && done[..i][j].task == t;
        assert done[..i + 1][j].task == t;
      } else {
        assert done[..i + 1][i].task == t;
      }
    }
  }

  lemma JoinableParts(a: seq<Joined>, b: seq<Joined>, tasks: map<TaskId, Command>)
    requires Joinable(a + b, tasks) && TasksOf(a + b) == tasks.Keys
    ensures Joinable(a, tasks) && Joinable(b, tasks - TasksOf(a))
    ensures (tasks - TasksOf(a)).Keys == TasksOf(b)
  {
    var all := a + b;
    assert forall i :: 0 <= i < |a| ==> all[i] == a[i];
    assert forall i :: 0 <= i < |b| ==> all[|a| + i] == b[i];
    forall i | 0 <= i < |a| ensures all[i].task in TasksOf(a) {
      assert a[i].task in TasksOf(a);
    }
    forall i | 0 <= i < |b| ensures b[i].task !in TasksOf(a) && b[i].task in tasks {
      assert all[|a| + i].task in TasksOf(all);
      forall j | 0 <= j < |a| ensures a[j].task != b[i].task {
        assert all[j].task != all[|a| + i].task;
      }
    }
    forall t | t in tasks && t !in TasksOf(a) ensures t in TasksOf(b) {
      var i :| 0 <= i < |all| && all[i].task == t;
      if i >= |a| {
        assert b[i - |a|].task == t;
      }
    }
    forall i, j | 0 <= i < j < |b| ensures b[i].task != b[j].task {
      assert all[|a| + i].task != all[|a| + j].task;
    }
  }

  // ------------------------------------------------------------ exact conservation

  ghost predicate DistinctIds(tasks: map<TaskId, Command>) {
    forall t, u :: t in tasks && u in tasks && tasks[t].id == tasks[u].id ==> t == u
  }

  /** Ids are distinct, and every task has its entry. */
  ghost predicate Exact(metadata: map<TaskId, TaskMetadata>, tasks: map<TaskId, Command>) {
    metadata.Keys == tasks.Keys && DistinctIds(tasks)
  }

  /** No task in flight carries the id of the command. */
  ghost predicate IdIsNew(tasks: map<TaskId, Command>, command: Command) {
    forall u :: u in tasks ==> tasks[u].id != command.id
  }

  lemma StartIsExact(metadata: map<TaskId, TaskMetadata>, tasks: map<TaskId, Command>, t: TaskId, command: Command)
    requires Exact(metadata, tasks) && t !in tasks && IdIsNew(tasks, command)
    ensures Exact(metadata[t := MetadataOf(command)], tasks[t := command])
  {
  }

  /** Joining a task keeps an entry for every task left, exactly if it crashed or none of them shares its id. */
  lemma ExactIffIdNotShared(metadata: map<TaskId, TaskMetadata>, tasks: map<TaskId, Command>, joined: Joined)
    requires Remembers(metadata, tasks) && metadata.Keys == tasks.Keys && joined.task in tasks
    ensures MetadataAfter(metadata, tasks, joined).Keys == tasks.Keys - {joined.task} <==>
              joined.Crashed?
              || forall u :: u in tasks && u != joined.task ==> tasks[u].id != tasks[joined.task].id
  {
    var rest := MetadataAfter(metadata, tasks, joined);
    if joined.Finished? {
      assert joined.task !in rest;
      forall u | u in tasks && u != joined.task ensures u in rest <==> tasks[u].id != tasks[joined.task].id {
        assert metadata[u] == MetadataOf(tasks[u]);
      }
    }
  }

  lemma JoinStaysExact(metadata: map<TaskId, TaskMetadata>, tasks: map<TaskId, Command>, joined: Joined)
    requires Remembers(metadata, tasks) && joined.task in tasks && Exact(metadata, tasks)
    ensures Exact(MetadataAfter(metadata, tasks, joined), tasks - {joined.task})
  {
    hide MetadataAfter;
    ExactIffIdNotShared(metadata, tasks, joined);
  }

  /** Then counters and busy projects are those of the tasks in flight. */
  lemma ExactMeansInFlight(metadata: map<TaskId, TaskMetadata>, tasks: map<TaskId, Command>)
    requires Remembers(metadata, tasks) && metadata.Keys == tasks.Keys
    ensures Light(metadata)
            == set t | t in tasks && tasks[t].commandType in {InspectProject, HealthCheck, RefreshRoute, DrainNode,
                                                              ResumeNode}
    ensures Heavy(metadata)
            == set t | t in tasks && tasks[t].commandType in {DeployProject, RestartProject, StopProject, SleepProject,
                                                              WakeProject, ReconcileWorkload, CleanupRuntime}
    ensures Projects(metadata) == set t | t in tasks && tasks[t].projectId.Some? :: tasks[t].projectId.value
    ensures |metadata| == |tasks|
  {
    assert |metadata.Keys| == |tasks.Keys|;
    var projects := set t | t in tasks && tasks[t].projectId.Some? :: tasks[t].projectId.value;
    forall p ensures p in Projects(metadata) <==> p in projects {
      if p in projects {
        var t :| t in tasks && tasks[t].projectId.Some? && tasks[t].projectId.value == p;
        assert metadata[t].projectId.value in Projects(metadata);
      }
    }
  }

  /** The entries left after a task was joined. */
  function MetadataAfter(metadata: map<TaskId, TaskMetadata>, tasks: map<TaskId, Command>, joined: Joined)
      : (rest: map<TaskId, TaskMetadata>)
    requires joined.task in tasks
  {
    match joined
    case Finished(task) => Without(metadata, tasks[task].id)
    case Crashed(task) => metadata - {task}
  }

  lemma StartRemembers(metadata: map<TaskId, TaskMetadata>, tasks: map<TaskId, Command>, t: TaskId, command: Command)
    requires Remembers(metadata, tasks) && t !in tasks
    ensures t !in metadata
    ensures Remembers(metadata[t := MetadataOf(command)], tasks[t := command])
  {
  }

  lemma FinishRemembers(metadata: map<TaskId, TaskMetadata>, tasks: map<TaskId, Command>, t: TaskId)
    requires Remembers(metadata, tasks) && t in tasks
    ensures Remembers(Without(metadata, tasks[t].id), tasks - {t})
  {
  }

  lemma CrashRemembers(metadata: map<TaskId, TaskMetadata>, tasks: map<TaskId, Command>, t: TaskId)
    requires Remembers(metadata, tasks) && t in tasks
    ensures Remembers(metadata - {t}, tasks - {t})
    ensures t !in metadata ==> metadata - {t} == metadata
  {
  }
}
