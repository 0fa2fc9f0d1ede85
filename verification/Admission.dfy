/**
 Container admission: the capacity check is made and used under one lock
 (crates/sakala-agent-runtime/src/executor/docker.rs, `deploy_inner`), so
 concurrent deployments do not overrun the node.
 */
module Admission {
  import opened Wrappers
  import opened Node

  lemma {:induction false} SubsetIsSmaller(a: set<Project>, b: set<Project>)
    requires a <= b
    ensures |a| <= |b|
    decreases b
  {
    if a != {} {
      var x :| x in a;
      SubsetIsSmaller(a - {x}, b - {x});
    }
  }

  function ProjectsOf(names: set<Name>): (projects: set<Project>) {
    set n | n in names :: n.project
  }

  lemma {:induction false} FewerProjects(names: set<Name>)
    ensures |ProjectsOf(names)| <= |names|
    decreases names
  {
    if names == {} {
      assert ProjectsOf(names) == {};
    } else {
      var n :| n in names;
      FewerProjects(names - {n});
      assert ProjectsOf(names) <= ProjectsOf(names - {n}) + {n.project};
      SubsetIsSmaller(ProjectsOf(names), ProjectsOf(names - {n}) + {n.project});
    }
  }

  /** The decision is safe at the moment it is made, and strict: a full node takes no new project. */
  lemma AdmitsSafely(s: State, p: Project, limit: nat)
    requires |RunningProjects(s)| <= limit && Admits(s, p, limit)
    ensures |RunningProjects(s) + {p}| <= limit
  {
    assert RunningProjects(s) == ProjectsOf(RunningNames(s));
    FewerProjects(RunningNames(s));
    if p in RunningProjects(s) {
      assert RunningProjects(s) + {p} == RunningProjects(s);
    }
  }

  predicate HoldsLock(pc: Pc) {
    pc.Checking? || pc.Starting?
  }

  /** The lock is held by the only command that checks or has been admitted. */
  ghost predicate LockSound(s: State) {
    forall p :: p in s.commands && HoldsLock(s.commands[p]) ==> s.admission == Some(p)
  }

  function StartingProjects(s: State): (projects: set<Project>) {
    set p | p in s.commands && s.commands[p].Starting?
  }

  /** The projects that run a container, or have been let in to start one. */
  function Reserved(s: State): (projects: set<Project>) {
    RunningProjects(s) + StartingProjects(s)
  }

  // ------------------------------------------------------------ single steps

  lemma LockStep(s: State, e: Event, limit: nat)
    requires LockSound(s) && Enabled(s, e)
    ensures LockSound(Next(s, e, limit))
  {
    hide Admits;
  }

  /** A container starts only where one is run or revived. */
  lemma RunningGrows(s: State, e: Event, limit: nat)
    requires Enabled(s, e)
    ensures RunningProjects(Next(s, e, limit)) <=
            RunningProjects(s) + if (e.RunContainer? && e.created == Running) || e.Revive? then {e.p} else {}
  {
    hide Next, Enabled;
    var next := Next(s, e, limit);
    forall q | q in RunningProjects(next)
      ensures q in RunningProjects(s) + if (e.RunContainer? && e.created == Running) || e.Revive? then {e.p} else {}
    {
      var n :| n in next.containers && next.containers[n] && n.project == q;
      StartsOnlyThere(s, e, limit, n);
      assert n in s.containers && s.containers[n] ==> q in RunningProjects(s);
    }
  }

  lemma StartsOnlyThere(s: State, e: Event, limit: nat, n: Name)
    requires Enabled(s, e)
    requires var next := Next(s, e, limit); n in next.containers && next.containers[n]
    ensures (n in s.containers && s.containers[n])
            || (((e.RunContainer? && e.created == Running) || e.Revive?) && n.project == e.p)
  {
    hide Admits;
  }

  /**
   What the capacity check decides: a replacement is let in, and so is any project
   while fewer containers than the limit run; nothing else is.
   */
  lemma CapacityDecision(s: State, p: Project, limit: nat)
    requires Enabled(s, CheckCapacity(p))
    ensures var running := set n | n in s.containers && s.containers[n];
            var d := s.commands[p].d;
            Next(s, CheckCapacity(p), limit)
            == if (exists n :: n in s.containers && s.containers[n] && n.project == p) || |running| < limit then
                 s.(commands := s.commands[p := Starting(d)])
               else
                 s.(commands := s.commands[p := Unwinding(d)],
                    admission := if s.admission == Some(p) then None else s.admission)
  {
    assert RunningNames(s) == set n | n in s.containers && s.containers[n];
    if n: Name :| n in s.containers && s.containers[n] && n.project == p {
      assert n.project in RunningProjects(s);
    }
  }

  /** In no run is the deployment of a project that has a running container refused for capacity. */
  lemma {:induction false} ReplacementIsAdmitted(start: State, events: seq<Event>, limit: nat, p: Project, n: Name)
    requires Run(start, events + [CheckCapacity(p)], limit).Some?
    ensures Run(start, events, limit).Some?
    ensures var s, next := Run(start, events, limit).value, Run(start, events + [CheckCapacity(p)], limit).value;
            n in s.containers && s.containers[n] && n.project == p ==>
              p in next.commands && next.commands[p].Starting? && next.containers == s.containers
  {
    assert (events + [CheckCapacity(p)])[..|events|] == events;
    var s := Run(start, events, limit).value;
    hide Run, Next;
    CapacityDecision(s, p, limit);
  }

  /** A deployment is let in only by the capacity check. */
  lemma StartingGrows(s: State, e: Event, limit: nat)
    requires Enabled(s, e)
    ensures StartingProjects(Next(s, e, limit)) <=
            StartingProjects(s) + if e.CheckCapacity? && Admits(s, e.p, limit) then {e.p} else {}
    ensures e.RunContainer? ==> e.p in StartingProjects(s)
  {
    hide Admits;
  }

  lemma CheckingIsAlone(s: State, p: Project)
    requires LockSound(s) && p in s.commands && s.commands[p].Checking?
    ensures StartingProjects(s) == {}
  {
  }

  /** A restart or wake that starts a container finds room for its project among the reserved ones. */
  predicate HasRoom(s: State, e: Event, limit: nat)
    requires Enabled(s, e)
  {
    e.Revive? && Name(e.p, s.commands[e.p].d) in s.containers ==> |Reserved(s) + {e.p}| <= limit
  }

  /** With room for what is revived, what is reserved stays within the limit. */
  lemma ReservedStep(s: State, e: Event, limit: nat)
    requires LockSound(s) && |Reserved(s)| <= limit && Enabled(s, e) && HasRoom(s, e, limit)
    ensures |Reserved(Next(s, e, limit))| <= limit
  {
    var next := Next(s, e, limit);
    RunningGrows(s, e, limit);
    StartingGrows(s, e, limit);
    if e.CheckCapacity? && Admits(s, e.p, limit) {
      CheckingIsAlone(s, e.p);
      SubsetIsSmaller(RunningProjects(s), Reserved(s));
      AdmitsSafely(s, e.p, limit);
      assert Reserved(next) <= RunningProjects(s) + {e.p};
      SubsetIsSmaller(Reserved(next), RunningProjects(s) + {e.p});
    } else if e.Revive? {
      ReviveStep(s, e.p, limit);
    } else {
      assert Reserved(next) <= Reserved(s);
      SubsetIsSmaller(Reserved(next), Reserved(s));
    }
  }

  /** A revived container runs, and those that ran still do. */
  lemma RevivedRuns(s: State, p: Project, limit: nat)
    requires Enabled(s, Revive(p)) && Name(p, s.commands[p].d) in s.containers
    ensures RunningProjects(Next(s, Revive(p), limit)) == RunningProjects(s) + {p}
  {
    var next := Next(s, Revive(p), limit);
    forall q | q in RunningProjects(s) + {p} ensures q in RunningProjects(next) {
      if q == p {
        assert next.containers[Name(p, s.commands[p].d)];
      } else {
        var n :| n in s.containers && s.containers[n] && n.project == q;
        assert next.containers[n];
      }
    }
    RunningGrows(s, Revive(p), limit);
  }

  /** Reviving an existing container reserves its project. */
  lemma ReviveStep(s: State, p: Project, limit: nat)
    requires Enabled(s, Revive(p))
    ensures Reserved(Next(s, Revive(p), limit))
            == Reserved(s) + if Name(p, s.commands[p].d) in s.containers then {p} else {}
  {
    assert StartingProjects(Next(s, Revive(p), limit)) == StartingProjects(s);
    if Name(p, s.commands[p].d) in s.containers {
      RevivedRuns(s, p, limit);
    }
  }

  // ------------------------------------------------------------ what a state can lead to at once

  /** The node is within its limit, and stays so when a deployment that was let in starts its container. */
  ghost predicate Safe(s: State, limit: nat) {
    && |RunningProjects(s)| <= limit
    && forall q :: Enabled(s, RunContainer(q, Running)) ==>
         |RunningProjects(Next(s, RunContainer(q, Running), limit))| <= limit
  }

  lemma StartedRuns(s: State, q: Project, limit: nat)
    requires Enabled(s, RunContainer(q, Running))
    ensures RunningProjects(Next(s, RunContainer(q, Running), limit)) == RunningProjects(s) + {q}
  {
    var next, name := Next(s, RunContainer(q, Running), limit), Name(q, s.commands[q].d);
    forall p | p in RunningProjects(s) + {q} ensures p in RunningProjects(next) {
      if p == q {
        assert next.containers[name];
      } else {
        var n :| n in s.containers && s.containers[n] && n.project == p;
        assert next.containers[n];
      }
    }
    RunningGrows(s, RunContainer(q, Running), limit);
  }

  lemma StartedIsReserved(s: State, q: Project, limit: nat)
    requires LockSound(s) && Enabled(s, RunContainer(q, Running))
    ensures RunningProjects(Next(s, RunContainer(q, Running), limit)) == Reserved(s)
  {
    StartedRuns(s, q, limit);
    hide Next, RunningProjects;
    assert StartingProjects(s) == {q};
  }

  /** That is what being reserved within the limit means. */
  lemma SafeIffReserved(s: State, limit: nat)
    requires LockSound(s)
    ensures Safe(s, limit) <==> |Reserved(s)| <= limit
  {
    hide Next, RunningProjects, LockSound;
    SubsetIsSmaller(RunningProjects(s), Reserved(s));
    forall q: Project | Enabled(s, RunContainer(q, Running))
      ensures RunningProjects(Next(s, RunContainer(q, Running), limit)) == Reserved(s)
    {
      StartedIsReserved(s, q, limit);
    }
    if q: Project :| q in StartingProjects(s) {
      assert Enabled(s, RunContainer(q, Running));
    } else {
      assert Reserved(s) == RunningProjects(s);
    }
  }

  /** A revived container without room puts the node over its limit, at once or with the next admitted start. */
  lemma StepIff(s: State, e: Event, limit: nat)
    requires LockSound(s) && Safe(s, limit) && Enabled(s, e)
    ensures Safe(Next(s, e, limit), limit) <==> HasRoom(s, e, limit)
  {
    hide Safe, Next, Enabled;
    SafeIffReserved(s, limit);
    LockStep(s, e, limit);
    SafeIffReserved(Next(s, e, limit), limit);
    if HasRoom(s, e, limit) {
      ReservedStep(s, e, limit);
    } else {
      ReviveStep(s, e.p, limit);
    }
  }

  // ------------------------------------------------------------ whole runs

  /** Each restart and wake of the run finds room when it happens. */
  ghost predicate AlwaysRoom(start: State, events: seq<Event>, limit: nat)
    requires Run(start, events, limit).Some?
  {
    if events == [] then true
    else
      var last := |events| - 1;
      && AlwaysRoom(start, events[..last], limit)
      && HasRoom(Run(start, events[..last], limit).value, events[last], limit)
  }

  /** Each state of the run is safe. */
  ghost predicate AlwaysSafe(start: State, events: seq<Event>, limit: nat)
    requires Run(start, events, limit).Some?
  {
    && (events == [] || AlwaysSafe(start, events[..|events| - 1], limit))
    && Safe(Run(start, events, limit).value, limit)
  }

  lemma {:induction false} AlwaysLocked(start: State, events: seq<Event>, limit: nat)
    requires Initial(start) && Run(start, events, limit).Some?
    ensures LockSound(Run(start, events, limit).value)
  {
    hide Next, Enabled;
    if events != [] {
      var last := |events| - 1;
      AlwaysLocked(start, events[..last], limit);
      LockStep(Run(start, events[..last], limit).value, events[last], limit);
    }
  }

  /**
   Starting within the limit, a run of deployments, stops, sleeps, crashes,
   restarts, wakes and cleanups never has more projects running than the limit,
   nor would with the next container start that was admitted, if and only if
   every restart and wake that starts a container finds room for its project
   among those that run or have been admitted. A redeployment may run two
   containers of its project for a while.
   */
  lemma {:induction false} AdmissionBoundIff(start: State, events: seq<Event>, limit: nat)
    requires Initial(start) && |RunningProjects(start)| <= limit && Run(start, events, limit).Some?
    ensures AlwaysSafe(start, events, limit) <==> AlwaysRoom(start, events, limit)
  {
    hide Next, Enabled, Safe, HasRoom, LockSound, Initial;
    if events == [] {
      InitiallySafe(start, limit);
    } else {
      var last := |events| - 1;
      AdmissionBoundIff(start, events[..last], limit);
      AlwaysLocked(start, events[..last], limit);
      if AlwaysSafe(start, events[..last], limit) {
        StepIff(Run(start, events[..last], limit).value, events[last], limit);
      }
    }
  }

  /** With room for every restart and wake, the limit holds at the end of the run. */
  lemma AdmissionBound(start: State, events: seq<Event>, limit: nat)
    requires Initial(start) && |RunningProjects(start)| <= limit
    requires Run(start, events, limit).Some? && AlwaysRoom(start, events, limit)
    ensures |RunningProjects(Run(start, events, limit).value)| <= limit
  {
    hide Run, AlwaysRoom;
    AdmissionBoundIff(start, events, limit);
  }

  lemma InitiallySafe(start: State, limit: nat)
    requires Initial(start) && |RunningProjects(start)| <= limit
    ensures Safe(start, limit)
  {
    hide RunningProjects, Next;
  }

  // ------------------------------------------------------------ restart and wake bypass admission

  /** Waking a sleeping project on a full node always puts the node over its limit. */
  lemma WakeOverruns(s: State, p: Project, d: Deployment, limit: nat)
    requires p !in s.commands && Name(p, d) in s.containers
    requires p !in RunningProjects(s) && |RunningProjects(s)| == limit
    ensures var end := Run(s, [BeginWake(p, d), Revive(p)], limit);
            end.Some? && RunningProjects(end.value) == RunningProjects(s) + {p}
            && |RunningProjects(end.value)| == limit + 1
  {
    WakeRuns(s, p, d, limit);
    hide Run, Next, Enabled, RunningProjects;
    TwoSteps(s, BeginWake(p, d), Revive(p), limit);
  }

  lemma WakeRuns(s: State, p: Project, d: Deployment, limit: nat)
    requires p !in s.commands && Name(p, d) in s.containers
    ensures Enabled(s, BeginWake(p, d)) && Enabled(Next(s, BeginWake(p, d), limit), Revive(p))
    ensures RunningProjects(Next(Next(s, BeginWake(p, d), limit), Revive(p), limit)) == RunningProjects(s) + {p}
  {
    var woken := Next(s, BeginWake(p, d), limit);
    assert woken == Goto(s, p, Reviving(d));
    RevivedRuns(woken, p, limit);
    hide Next;
    assert RunningProjects(woken) == RunningProjects(s);
  }

  lemma TwoSteps(s: State, e: Event, f: Event, limit: nat)
    requires Enabled(s, e) && Enabled(Next(s, e, limit), f)
    ensures Run(s, [e, f], limit) == Some(Next(Next(s, e, limit), f, limit))
  {
    hide Next, Enabled, Run;
    RunStarts(s, limit);
    var one := RunGoesOn(s, [], e, s, limit);
    var two := RunGoesOn(s, one, f, Next(s, e, limit), limit);
    assert two == [e, f];
  }

  /** The states of the run below: project 0 is restarted while its container stops and project 1 is deployed. */
  function Scene(first: bool, second: Option<bool>, pc: Pc, other: Option<Pc>,
                 lock: Option<Project>, used: set<Deployment>): State
  {
    var containers := map[Name(0, 0) := first];
    var commands := map[0 := pc];
    State(if second.Some? then containers[Name(1, 1) := second.value] else containers, map[],
          if other.Some? then commands[1 := other.value] else commands, lock, used)
  }

  lemma RestartFreesSlot()
    ensures var start := State(map[Name(0, 0) := true], map[], map[], None, {0});
            && Enabled(start, BeginRestart(0, 0))
            && Next(start, BeginRestart(0, 0), 1) == Scene(true, None, Reviving(0), None, None, {0})
    ensures var s := Scene(true, None, Reviving(0), None, None, {0});
            && Enabled(s, Crash(Name(0, 0)))
            && Next(s, Crash(Name(0, 0)), 1) == Scene(false, None, Reviving(0), None, None, {0})
  {
  }

  lemma DeployTakesLock()
    ensures var s := Scene(false, None, Reviving(0), None, None, {0});
            && Enabled(s, BeginDeploy(1, 1))
            && Next(s, BeginDeploy(1, 1), 1) == Scene(false, None, Reviving(0), Some(Building(1)), None, {0, 1})
    ensures var s := Scene(false, None, Reviving(0), Some(Building(1)), None, {0, 1});
            && Enabled(s, LockAdmission(1))
            && Next(s, LockAdmission(1), 1) == Scene(false, None, Reviving(0), Some(Checking(1)), Some(1), {0, 1})
  {
    assert {0} + {1} == {0, 1};
  }

  lemma DeployTakesSlot()
    ensures var s := Scene(false, None, Reviving(0), Some(Checking(1)), Some(1), {0, 1});
            && Enabled(s, CheckCapacity(1))
            && Next(s, CheckCapacity(1), 1) == Scene(false, None, Reviving(0), Some(Starting(1)), Some(1), {0, 1})
    ensures var s := Scene(false, None, Reviving(0), Some(Starting(1)), Some(1), {0, 1});
            && Enabled(s, RunContainer(1, Running))
            && Next(s, RunContainer(1, Running), 1)
               == Scene(false, Some(true), Reviving(0), Some(Activating(1)), None, {0, 1})
  {
    assert RunningNames(Scene(false, None, Reviving(0), Some(Checking(1)), Some(1), {0, 1})) == {};
  }

  lemma RestartGoesOn()
    ensures var s := Scene(false, Some(true), Reviving(0), Some(Activating(1)), None, {0, 1});
            && Enabled(s, Revive(0))
            && |RunningProjects(Next(s, Revive(0), 1))| == 2
  {
    var s := Next(Scene(false, Some(true), Reviving(0), Some(Activating(1)), None, {0, 1}), Revive(0), 1);
    assert s.containers == map[Name(0, 0) := true, Name(1, 1) := true];
    assert Name(0, 0).project in RunningProjects(s) && Name(1, 1).project in RunningProjects(s);
    assert RunningProjects(s) == {0, 1};
  }

  /**
   The bound does need the condition: a container that stops while its restart
   is under way frees a slot, a deployment takes it, and the restart goes on.
   */
  lemma RestartOverruns() returns (start: State, events: seq<Event>)
    ensures Initial(start) && |RunningProjects(start)| <= 1
    ensures Run(start, events, 1).Some? && |RunningProjects(Run(start, events, 1).value)| == 2
  {
    start := State(map[Name(0, 0) := true], map[], map[], None, {0});
    assert RunningProjects(start) == {0};
    hide Run;
    RunStarts(start, 1);
    RestartFreesSlot();
    RestartGoesOn();
    hide Next, Enabled, RunningProjects, Scene;
    events := RunGoesOn(start, [], BeginRestart(0, 0), start, 1);
    events := RunGoesOn(start, events, Crash(Name(0, 0)), Scene(true, None, Reviving(0), None, None, {0}), 1);
    events := DeployGoesOn(start, events);
    events := RunGoesOn(start, events, Revive(0),
                        Scene(false, Some(true), Reviving(0), Some(Activating(1)), None, {0, 1}), 1);
  }

  lemma DeployGoesOn(start: State, before: seq<Event>) returns (events: seq<Event>)
    requires Run(start, before, 1) == Some(Scene(false, None, Reviving(0), None, None, {0}))
    ensures Run(start, events, 1) == Some(Scene(false, Some(true), Reviving(0), Some(Activating(1)), None, {0, 1}))
  {
    DeployTakesLock();
    DeployTakesSlot();
    hide Run, Next, Enabled, Scene;
    events := RunGoesOn(start, before, BeginDeploy(1, 1), Scene(false, None, Reviving(0), None, None, {0}), 1);
    events := RunGoesOn(start, events, LockAdmission(1),
                        Scene(false, None, Reviving(0), Some(Building(1)), None, {0, 1}), 1);
    events := RunGoesOn(start, events, CheckCapacity(1),
                        Scene(false, None, Reviving(0), Some(Checking(1)), Some(1), {0, 1}), 1);
    events := RunGoesOn(start, events, RunContainer(1, Running),
                        Scene(false, None, Reviving(0), Some(Starting(1)), Some(1), {0, 1}), 1);
  }
}
