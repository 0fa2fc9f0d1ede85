/**
 What the commands of a node achieve when nothing goes wrong, and what a
 deployment leaves behind when something does.
 */
module NodeOutcomes {
  import opened Wrappers
  import opened Node

  // ------------------------------------------------------------ a deployment up to its cutover

  /** The project may run a container at once: one is running already, or there is room. */
  predicate MayStart(s: State, p: Project, limit: nat) {
    || (exists n :: n in s.containers && s.containers[n] && n.project == p)
    || |set n | n in s.containers && s.containers[n]| < limit
  }

  lemma AdmitsIff(s: State, p: Project, limit: nat)
    ensures Admits(s, p, limit) <==> MayStart(s, p, limit)
  {
    assert RunningNames(s) == set n | n in s.containers && s.containers[n];
    assert p in RunningProjects(s) <==> exists n :: n in s.containers && s.containers[n] && n.project == p;
  }

  /** The state of a node in the middle of a deployment. */
  function Deploying(s: State, p: Project, d: Deployment, pc: Pc, lock: Option<Project>): (r: State) {
    s.(commands := s.commands[p := pc], used := s.used + {d}, admission := lock)
  }

  lemma Admitted(s: State, p: Project, d: Deployment, limit: nat) returns (events: seq<Event>)
    requires p !in s.commands && d !in s.used && s.admission == None && MayStart(s, p, limit)
    ensures |events| == 3
    ensures Run(s, events, limit) == Some(Deploying(s, p, d, Starting(d), Some(p)))
  {
    RunStarts(s, limit);
    AdmitsIff(s, p, limit);
    var s1, s2 := Deploying(s, p, d, Building(d), None), Deploying(s, p, d, Checking(d), Some(p));
    BeginsAndLocks(s, p, d, limit);
    assert Admits(s2, p, limit) by {
      assert s2.containers == s.containers;
    }
    assert Next(s2, CheckCapacity(p), limit) == Deploying(s, p, d, Starting(d), Some(p));
    hide Run, Next, Deploying, MayStart, Admits;
    events := RunGoesOn(s, [], BeginDeploy(p, d), s, limit);
    events := RunGoesOn(s, events, LockAdmission(p), s1, limit);
    events := RunGoesOn(s, events, CheckCapacity(p), s2, limit);
  }

  lemma BeginsAndLocks(s: State, p: Project, d: Deployment, limit: nat)
    requires p !in s.commands && d !in s.used && s.admission == None
    ensures Enabled(s, BeginDeploy(p, d))
    ensures Next(s, BeginDeploy(p, d), limit) == Deploying(s, p, d, Building(d), None)
    ensures var s1 := Deploying(s, p, d, Building(d), None);
            Enabled(s1, LockAdmission(p))
            && Next(s1, LockAdmission(p), limit) == Deploying(s, p, d, Checking(d), Some(p))
    ensures Enabled(Deploying(s, p, d, Checking(d), Some(p)), CheckCapacity(p))
  {
  }

  // ------------------------------------------------------------ a deployment that succeeds

  function CutOver(s: State, p: Project, d: Deployment): (r: State) {
    s.(containers := s.containers[Name(p, d) := true], routes := s.routes[p := d],
       commands := s.commands[p := Finalizing(d)], used := s.used + {d})
  }

  lemma CutsOver(s: State, p: Project, d: Deployment, limit: nat)
    requires s.admission == None
    ensures var s3 := Deploying(s, p, d, Starting(d), Some(p));
            && Enabled(s3, RunContainer(p, Running))
            && var s4 := Next(s3, RunContainer(p, Running), limit);
               && Enabled(s4, ActivateCandidate(p, true))
               && Next(s4, ActivateCandidate(p, true), limit) == CutOver(s, p, d)
  {
    var s4 := Next(Deploying(s, p, d, Starting(d), Some(p)), RunContainer(p, Running), limit);
    assert s4 == s.(containers := s.containers[Name(p, d) := true],
                    commands := s.commands[p := Starting(d)][p := Activating(d)], used := s.used + {d});
    assert s.commands[p := Starting(d)][p := Activating(d)] == s.commands[p := Activating(d)];
    assert s.commands[p := Activating(d)][p := Finalizing(d)] == s.commands[p := Finalizing(d)];
  }

  /** The containers of the project other than the one of the deployment. */
  function Previous(s: State, p: Project, d: Deployment): (names: set<Name>) {
    set n | n in s.containers && n.project == p && n.deployment != d
  }

  lemma StopsAndRemoves(s: State, p: Project, d: Deployment, n: Name, limit: nat)
    requires p in s.commands && s.commands[p] == Finalizing(d) && n in Previous(s, p, d)
    ensures Enabled(s, StopPrevious(p, n.deployment))
    ensures var stopped := Next(s, StopPrevious(p, n.deployment), limit);
            && Enabled(stopped, RemovePrevious(p, n.deployment))
            && Next(stopped, RemovePrevious(p, n.deployment), limit) == s.(containers := s.containers - {n})
  {
    assert n == Name(p, n.deployment);
    assert s.containers[n := false] - {n} == s.containers - {n};
  }

  lemma {:induction false} PreviousGo(start: State, before: seq<Event>, s: State, p: Project, d: Deployment, limit: nat)
      returns (events: seq<Event>)
    requires Run(start, before, limit) == Some(s) && p in s.commands && s.commands[p] == Finalizing(d)
    ensures |events| == |before| + 2 * |Previous(s, p, d)|
    ensures Run(start, events, limit) == Some(s.(containers := s.containers - Previous(s, p, d)))
    decreases |Previous(s, p, d)|
  {
    hide Run, Next, Enabled;
    var previous := Previous(s, p, d);
    if previous == {} {
      events := before;
      assert s.containers - {} == s.containers;
    } else {
      var n :| n in previous;
      StopsAndRemoves(s, p, d, n, limit);
      var rest := s.(containers := s.containers - {n});
      assert Previous(rest, p, d) == previous - {n};
      events := RunGoesOn(start, before, StopPrevious(p, n.deployment), s, limit);
      events := RunGoesOn(start, events, RemovePrevious(p, n.deployment),
                          Next(s, StopPrevious(p, n.deployment), limit), limit);
      events := PreviousGo(start, events, rest, p, d, limit);
      assert rest.containers - (previous - {n}) == s.containers - previous;
    }
  }

  /**
   A deployment that may start and meets no fault: afterwards the project has the
   new container, running and routed, and no other; nothing else has changed.
   */
  lemma DeployReplaces(s: State, p: Project, d: Deployment, limit: nat) returns (events: seq<Event>)
    requires p !in s.commands && d !in s.used && s.admission == None && MayStart(s, p, limit)
    ensures Run(s, events, limit)
            == Some(s.(containers := (s.containers - Previous(s, p, d))[Name(p, d) := true],
                       routes := s.routes[p := d], used := s.used + {d}))
    ensures |events| == 6 + 2 * |Previous(s, p, d)|
  {
    var live := CutOver(s, p, d);
    events := Admitted(s, p, d, limit);
    CutsOver(s, p, d, limit);
    var s3 := Deploying(s, p, d, Starting(d), Some(p));
    SamePrevious(s, p, d);
    var clean := live.(containers := live.containers - Previous(live, p, d));
    Ends(clean, p, s.commands, limit);
    hide Run, Next, Deploying, CutOver, Previous, MayStart, Enabled;
    events := RunGoesOn(s, events, RunContainer(p, Running), s3, limit);
    events := RunGoesOn(s, events, ActivateCandidate(p, true), Next(s3, RunContainer(p, Running), limit), limit);
    CutOverIs(s, p, d);
    events := PreviousGo(s, events, live, p, d, limit);
    events := RunGoesOn(s, events, End(p), clean, limit);
  }

  lemma CutOverIs(s: State, p: Project, d: Deployment)
    ensures p in CutOver(s, p, d).commands && CutOver(s, p, d).commands[p] == Finalizing(d)
  {
  }

  lemma SamePrevious(s: State, p: Project, d: Deployment)
    ensures var live := CutOver(s, p, d);
            && Previous(live, p, d) == Previous(s, p, d)
            && live.containers - Previous(s, p, d) == (s.containers - Previous(s, p, d))[Name(p, d) := true]
            && live.routes == s.routes[p := d] && live.used == s.used + {d} && live.admission == s.admission
  {
  }

  lemma Ends(s: State, p: Project, commands: map<Project, Pc>, limit: nat)
    requires p !in commands && (exists d :: s.commands == commands[p := Finalizing(d)])
    ensures Enabled(s, End(p)) && Next(s, End(p), limit) == s.(commands := commands)
  {
    var d :| s.commands == commands[p := Finalizing(d)];
    assert commands[p := Finalizing(d)] - {p} == commands;
  }

  // ------------------------------------------------------------ a deployment that fails

  /** On the way to its cutover; the container may be there, and nothing else has changed. */
  ghost predicate OnTheWay(s: State, mid: State, p: Project, d: Deployment) {
    && p !in s.commands && Name(p, d) !in s.containers
    && mid.routes == s.routes && mid.used == s.used + {d}
    && (mid.admission == s.admission || (s.admission == None && mid.admission == Some(p)))
    && p in mid.commands && mid.commands == s.commands[p := mid.commands[p]]
    && match mid.commands[p]
       case Building(e) => e == d && mid.containers == s.containers && mid.admission == s.admission
       case Checking(e) => e == d && mid.containers == s.containers
       case Starting(e) => e == d && mid.containers == s.containers
       case Activating(e) =>
         e == d && mid.containers == s.containers[Name(p, d) := true] && mid.admission == s.admission
       case Unwinding(e) => e == d && mid.containers - {Name(p, d)} == s.containers && mid.admission == s.admission
       case _ => false
  }

  /** That is where a deployment is from its start on, as long as no step fails. */
  lemma StaysOnTheWay(s: State, mid: State, e: Event, p: Project, d: Deployment, limit: nat)
    requires OnTheWay(s, mid, p, d) && !mid.commands[p].Unwinding? && Enabled(mid, e)
    requires || e == LockAdmission(p) || e == RunContainer(p, Running)
             || (e == CheckCapacity(p) && MayStart(mid, p, limit))
    requires s.admission != Some(p)
    ensures OnTheWay(s, Next(mid, e, limit), p, d) && !Next(mid, e, limit).commands[p].Unwinding?
  {
    AdmitsIff(mid, p, limit);
    hide MayStart, Admits;
    var next := Next(mid, e, limit);
    assert next.commands == s.commands[p := next.commands[p]];
  }

  lemma StartsOnTheWay(s: State, p: Project, d: Deployment, limit: nat)
    requires Enabled(s, BeginDeploy(p, d)) && Name(p, d) !in s.containers
    ensures OnTheWay(s, Next(s, BeginDeploy(p, d), limit), p, d)
  {
  }

  /** The step fails. */
  predicate FailsThere(mid: State, e: Event, p: Project, limit: nat)
    requires Enabled(mid, e)
  {
    || e == DeployFails(p)
    || (e == CheckCapacity(p) && !MayStart(mid, p, limit))
    || e == RunContainer(p, Nothing) || e == RunContainer(p, Stopped)
    || e == ActivateCandidate(p, false)
  }

  lemma FailingStep(mid: State, e: Event, p: Project, limit: nat)
    requires Enabled(mid, e) && FailsThere(mid, e, p, limit)
    ensures p in mid.commands && (e == RunContainer(p, Stopped) ==> mid.commands[p].Starting?)
    ensures var next, d := Next(mid, e, limit), mid.commands[p].d;
            && next.commands == mid.commands[p := Unwinding(d)]
            && next.containers
               == (if e == RunContainer(p, Stopped) then mid.containers[Name(p, d) := false] else mid.containers)
            && next.routes == mid.routes && next.used == mid.used
            && (next.admission == mid.admission || (mid.admission == Some(p) && next.admission == None))
            && (next.admission == Some(p) ==> e == ActivateCandidate(p, false))
    ensures e == ActivateCandidate(p, false) ==> mid.commands[p].Activating?
  {
    AdmitsIff(mid, p, limit);
    hide MayStart, Admits;
  }

  lemma FailureUnwinds(s: State, mid: State, e: Event, p: Project, d: Deployment, limit: nat)
    requires OnTheWay(s, mid, p, d) && !mid.commands[p].Unwinding? && Enabled(mid, e) && FailsThere(mid, e, p, limit)
    requires s.admission != Some(p)
    ensures OnTheWay(s, Next(mid, e, limit), p, d) && Next(mid, e, limit).commands[p] == Unwinding(d)
  {
    FailingStep(mid, e, p, limit);
    hide Next, Enabled, FailsThere;
    WithoutCandidate(s.containers, Name(p, d));
    var next := Next(mid, e, limit);
    assert next.commands == s.commands[p := Unwinding(d)];
  }

  lemma WithoutCandidate(containers: map<Name, bool>, candidate: Name)
    requires candidate !in containers
    ensures containers - {candidate} == containers
    ensures containers[candidate := true] - {candidate} == containers
    ensures containers[candidate := false] - {candidate} == containers
  {
  }

  /**
   Wherever a deployment fails before its cutover, whether it is refused, cannot
   create, start or reach its container, or cannot activate its route, cleaning up
   puts the node back as it was; only the deployment id is used.
   */
  lemma FailureRollsBack(s: State, mid: State, e: Event, p: Project, d: Deployment, limit: nat)
    requires OnTheWay(s, mid, p, d) && !mid.commands[p].Unwinding? && s.admission != Some(p)
    requires Enabled(mid, e) && FailsThere(mid, e, p, limit)
    ensures Run(mid, [e, CleanupCandidate(p, true)], limit) == Some(s.(used := s.used + {d}))
  {
    FailureUnwinds(s, mid, e, p, d, limit);
    var unwinding := Next(mid, e, limit);
    CleansUp(s, unwinding, p, d, limit);
    hide Next, Enabled, OnTheWay, Run, FailsThere;
    RunStarts(mid, limit);
    var one := RunGoesOn(mid, [], e, mid, limit);
    var two := RunGoesOn(mid, one, CleanupCandidate(p, true), unwinding, limit);
    assert two == [e, CleanupCandidate(p, true)];
  }

  lemma CleansUp(s: State, mid: State, p: Project, d: Deployment, limit: nat)
    requires OnTheWay(s, mid, p, d) && mid.commands[p] == Unwinding(d)
    ensures Enabled(mid, CleanupCandidate(p, true))
    ensures Next(mid, CleanupCandidate(p, true), limit) == s.(used := s.used + {d})
  {
    assert mid.commands - {p} == s.commands;
  }

  // ------------------------------------------------------------ stop, sleep, wake, restart and refresh

  function WithoutRoute(routes: map<Project, Deployment>, p: Project, d: Deployment): (r: map<Project, Deployment>) {
    if p in routes && routes[p] == d then routes - {p} else routes
  }

  lemma StopSteps(s: State, p: Project, d: Deployment, remove: bool, limit: nat)
    requires p !in s.commands && Name(p, d) in s.containers
    ensures Enabled(s, BeginStop(p, d, remove))
    ensures var s1 := Next(s, BeginStop(p, d, remove), limit);
            && s1 == s.(commands := s.commands[p := Stopping(d, remove)])
            && Enabled(s1, StopWorkload(p))
            && var s2 := Next(s1, StopWorkload(p), limit);
               && s2 == s.(containers := s.containers[Name(p, d) := false],
                           commands := s.commands[p := Unrouting(d, remove)])
               && Enabled(s2, Unroute(p, true))
  {
    assert s.commands[p := Stopping(d, remove)][p := Unrouting(d, remove)] == s.commands[p := Unrouting(d, remove)];
  }

  lemma UnrouteStep(s: State, p: Project, d: Deployment, remove: bool, limit: nat)
    requires p !in s.commands && Name(p, d) in s.containers
    ensures var s2 := s.(containers := s.containers[Name(p, d) := false],
                         commands := s.commands[p := Unrouting(d, remove)]);
            && Enabled(s2, Unroute(p, true))
            && var s3 := Next(s2, Unroute(p, true), limit);
               && s3 == s.(containers := s.containers[Name(p, d) := false],
                           routes := WithoutRoute(s.routes, p, d),
                           commands := if remove then s.commands[p := Removing(d)] else s.commands)
               && (remove ==> Enabled(s3, RemoveWorkload(p))
                              && Next(s3, RemoveWorkload(p), limit)
                                 == s.(containers := s.containers - {Name(p, d)},
                                       routes := WithoutRoute(s.routes, p, d)))
  {
    assert s.commands[p := Unrouting(d, remove)][p := Removing(d)] == s.commands[p := Removing(d)];
    assert s.commands[p := Unrouting(d, remove)] - {p} == s.commands;
    assert s.commands[p := Removing(d)] - {p} == s.commands;
    assert s.containers[Name(p, d) := false] - {Name(p, d)} == s.containers - {Name(p, d)};
  }

  /** A sleep stops the container and takes its route away; the container stays. A stop removes it as well. */
  lemma StopTakesAway(s: State, p: Project, d: Deployment, remove: bool, limit: nat) returns (events: seq<Event>)
    requires p !in s.commands && Name(p, d) in s.containers
    ensures Run(s, events, limit)
            == Some(s.(containers := if remove then s.containers - {Name(p, d)} else s.containers[Name(p, d) := false],
                       routes := if p in s.routes && s.routes[p] == d then s.routes - {p} else s.routes))
  {
    RunStarts(s, limit);
    StopSteps(s, p, d, remove, limit);
    UnrouteStep(s, p, d, remove, limit);
    var s1 := s.(commands := s.commands[p := Stopping(d, remove)]);
    var s2 := s.(containers := s.containers[Name(p, d) := false], commands := s.commands[p := Unrouting(d, remove)]);
    hide Run, Next, Enabled;
    events := RunGoesOn(s, [], BeginStop(p, d, remove), s, limit);
    events := RunGoesOn(s, events, StopWorkload(p), s1, limit);
    events := RunGoesOn(s, events, Unroute(p, true), s2, limit);
    if remove {
      events := RunGoesOn(s, events, RemoveWorkload(p), Next(s2, Unroute(p, true), limit), limit);
    }
  }

  lemma RouteSteps(s: State, p: Project, d: Deployment, limit: nat)
    requires p !in s.commands && Name(p, d) in s.containers
    ensures var s1 := s.(commands := s.commands[p := Reviving(d)]);
            var s2 := s.(containers := s.containers[Name(p, d) := true], commands := s.commands[p := Rerouting(d)]);
            && Enabled(s1, Revive(p)) && Next(s1, Revive(p), limit) == s2
            && Enabled(s2, Reroute(p, true))
            && Next(s2, Reroute(p, true), limit)
               == s.(containers := s.containers[Name(p, d) := true], routes := s.routes[p := d])
  {
    assert s.commands[p := Reviving(d)][p := Rerouting(d)] == s.commands[p := Rerouting(d)];
    assert s.commands[p := Rerouting(d)] - {p} == s.commands;
  }

  /** A wake, or a restart of a running container, ends with the container running and routed. */
  lemma ReviveRestores(s: State, p: Project, d: Deployment, restart: bool, limit: nat) returns (events: seq<Event>)
    requires p !in s.commands && Name(p, d) in s.containers && (restart ==> s.containers[Name(p, d)])
    ensures Run(s, events, limit)
            == Some(s.(containers := s.containers[Name(p, d) := true], routes := s.routes[p := d]))
    ensures |events| == 3 && events[0] == if restart then BeginRestart(p, d) else BeginWake(p, d)
  {
    var first := if restart then BeginRestart(p, d) else BeginWake(p, d);
    var s1 := s.(commands := s.commands[p := Reviving(d)]);
    assert Enabled(s, first) && Next(s, first, limit) == s1;
    RunStarts(s, limit);
    RouteSteps(s, p, d, limit);
    hide Run, Next, Enabled;
    events := RunGoesOn(s, [], first, s, limit);
    events := RunGoesOn(s, events, Revive(p), s1, limit);
    events := RunGoesOn(s, events, Reroute(p, true), Next(s1, Revive(p), limit), limit);
  }

  /** Putting a running, routed container to sleep and waking it changes nothing. */
  lemma SleepThenWake(s: State, p: Project, d: Deployment, limit: nat) returns (slept: seq<Event>, woken: seq<Event>)
    requires p !in s.commands && Name(p, d) in s.containers && s.containers[Name(p, d)]
    requires p in s.routes && s.routes[p] == d
    ensures Run(s, slept, limit).Some? && Run(Run(s, slept, limit).value, woken, limit) == Some(s)
  {
    hide Run;
    slept := StopTakesAway(s, p, d, false, limit);
    var asleep := Run(s, slept, limit).value;
    woken := ReviveRestores(asleep, p, d, false, limit);
    assert asleep.containers[Name(p, d) := true] == s.containers && asleep.routes[p := d] == s.routes;
  }

  /** Refreshing the route of a running container makes its project's route name it. */
  lemma RefreshRoutes(s: State, p: Project, d: Deployment, limit: nat) returns (events: seq<Event>)
    requires p !in s.commands && Name(p, d) in s.containers && s.containers[Name(p, d)]
    ensures Run(s, events, limit) == Some(s.(routes := s.routes[p := d]))
  {
    var s1 := s.(commands := s.commands[p := Rerouting(d)]);
    assert Enabled(s, BeginRefresh(p, d)) && Next(s, BeginRefresh(p, d), limit) == s1;
    assert s1.commands - {p} == s.commands;
    assert Enabled(s1, Reroute(p, true)) && Next(s1, Reroute(p, true), limit) == s.(routes := s.routes[p := d]);
    RunStarts(s, limit);
    hide Run, Next, Enabled;
    events := RunGoesOn(s, [], BeginRefresh(p, d), s, limit);
    events := RunGoesOn(s, events, Reroute(p, true), s1, limit);
  }
}
