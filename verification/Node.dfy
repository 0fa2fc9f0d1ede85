/**
 The containers and routes of one node under the commands that change them
 (crates/sakala-agent-runtime/src/executor/docker.rs and
 crates/sakala-agent-runtime/src/containers/docker.rs).

 Docker and Caddy operations are single steps that succeed or fail; between
 two of them anything else may happen, including a container that stops by
 itself. The scheduler runs at most one command a project, and the control
 plane gives every deployment a new id. `cleanup_failed_candidate` is left out.
 */
module Node {
  import opened Wrappers

  type Project = nat
  type Deployment = nat

  /** The name of the container of a deployment. */
  datatype Name = Name(project: Project, deployment: Deployment)

  /** The next step of a command. */
  datatype Pc =
    // Deploy: before admission, with the admission lock, admitted, started, cut over, failed.
    | Building(d: Deployment)
    | Checking(d: Deployment)
    | Starting(d: Deployment)
    | Activating(d: Deployment)
    | Finalizing(d: Deployment)
    | Unwinding(d: Deployment)
    // Restart and wake start the existing container; they and a route refresh then activate its route.
    | Reviving(d: Deployment)
    | Rerouting(d: Deployment)
    // Stop and sleep; only stop removes the container.
    | Stopping(d: Deployment, remove: bool)
    | Unrouting(d: Deployment, remove: bool)
    | Removing(d: Deployment)

  datatype State = State(
    // Every managed container that has not been removed, and whether it runs.
    containers: map<Name, bool>,
    // The deployment the route file of a project names.
    routes: map<Project, Deployment>,
    commands: map<Project, Pc>,
    admission: Option<Project>,
    used: set<Deployment>)

  datatype Created = Nothing | Stopped | Running

  datatype Event =
    | BeginDeploy(p: Project, d: Deployment)
    | LockAdmission(p: Project)
    | CheckCapacity(p: Project)
    | RunContainer(p: Project, created: Created)
    | DeployFails(p: Project)
    | ActivateCandidate(p: Project, ok: bool)
    | StopPrevious(p: Project, d: Deployment)
    | RemovePrevious(p: Project, d: Deployment)
    | CleanupCandidate(p: Project, removed: bool)
    | BeginRestart(p: Project, d: Deployment)
    | BeginWake(p: Project, d: Deployment)
    | BeginRefresh(p: Project, d: Deployment)
    | Revive(p: Project)
    | Reroute(p: Project, ok: bool)
    | BeginStop(p: Project, d: Deployment, remove: bool)
    | StopWorkload(p: Project)
    | Unroute(p: Project, ok: bool)
    | RemoveWorkload(p: Project)
    | End(p: Project)
    // From outside the command: a container stops, or a stale route is cleaned up.
    | Crash(name: Name)
    | CleanStaleRoute(p: Project)

  function RunningNames(s: State): (names: set<Name>) {
    set n | n in s.containers && s.containers[n]
  }

  function RunningProjects(s: State): (projects: set<Project>) {
    set n | n in s.containers && s.containers[n] :: n.project
  }

  /** The decision of `ensure_capacity`: a replacement is always let in. */
  predicate Admits(s: State, p: Project, limit: nat) {
    p in RunningProjects(s) || |RunningNames(s)| < limit
  }

  predicate At(s: State, p: Project, pc: Pc) {
    p in s.commands && s.commands[p] == pc
  }

  predicate Enabled(s: State, e: Event) {
    match e
    case BeginDeploy(p, d) => p !in s.commands && d !in s.used
    case LockAdmission(p) => p in s.commands && s.commands[p].Building? && s.admission == None
    case CheckCapacity(p) => p in s.commands && s.commands[p].Checking?
    case RunContainer(p, _) => p in s.commands && s.commands[p].Starting?
    case DeployFails(p) =>
      p in s.commands
      && (s.commands[p].Building? || s.commands[p].Checking? || s.commands[p].Starting? || s.commands[p].Activating?)
    case ActivateCandidate(p, _) => p in s.commands && s.commands[p].Activating?
    case StopPrevious(p, d) =>
      p in s.commands && s.commands[p].Finalizing? && d != s.commands[p].d && Name(p, d) in s.containers
    case RemovePrevious(p, d) =>
      p in s.commands && s.commands[p].Finalizing? && d != s.commands[p].d
      && Name(p, d) in s.containers && !s.containers[Name(p, d)]
    case CleanupCandidate(p, _) => p in s.commands && s.commands[p].Unwinding?
    case BeginRestart(p, d) => p !in s.commands && Name(p, d) in s.containers && s.containers[Name(p, d)]
    case BeginWake(p, d) => p !in s.commands && Name(p, d) in s.containers
    case BeginRefresh(p, d) => p !in s.commands && Name(p, d) in s.containers && s.containers[Name(p, d)]
    case Revive(p) => p in s.commands && s.commands[p].Reviving?
    case Reroute(p, _) => p in s.commands && s.commands[p].Rerouting?
    // A stop of a workload that is gone still removes its route.
    case BeginStop(p, d, remove) => p !in s.commands && (remove || Name(p, d) in s.containers)
    case StopWorkload(p) => p in s.commands && s.commands[p].Stopping?
    case Unroute(p, _) => p in s.commands && s.commands[p].Unrouting?
    case RemoveWorkload(p) =>
      p in s.commands && s.commands[p].Removing?
      && Name(p, s.commands[p].d) in s.containers && !s.containers[Name(p, s.commands[p].d)]
    // A command that is over, or gives up; a deployment gives up through `DeployFails`.
    case End(p) =>
      p in s.commands
      && !(s.commands[p].Building? || s.commands[p].Checking? || s.commands[p].Starting? || s.commands[p].Activating?)
    case Crash(name) => name in s.containers
    case CleanStaleRoute(p) => p in s.routes
  }

  function Goto(s: State, p: Project, pc: Pc): State {
    s.(commands := s.commands[p := pc])
  }

  function Done(s: State, p: Project): State {
    s.(commands := s.commands - {p})
  }

  function Released(s: State, p: Project): Option<Project> {
    if s.admission == Some(p) then None else s.admission
  }

  function Next(s: State, e: Event, limit: nat): (r: State)
    requires Enabled(s, e)
  {
    match e
    case BeginDeploy(p, d) => Goto(s, p, Building(d)).(used := s.used + {d})
    case LockAdmission(p) => Goto(s, p, Checking(s.commands[p].d)).(admission := Some(p))
    case CheckCapacity(p) =>
      if Admits(s, p, limit) then Goto(s, p, Starting(s.commands[p].d))
      else Goto(s, p, Unwinding(s.commands[p].d)).(admission := Released(s, p))
    case RunContainer(p, created) =>
      var d := s.commands[p].d;
      (match created
       case Nothing => Goto(s, p, Unwinding(d)).(admission := Released(s, p))
       case Stopped =>
         Goto(s, p, Unwinding(d)).(containers := s.containers[Name(p, d) := false], admission := Released(s, p))
       case Running =>
         Goto(s, p, Activating(d)).(containers := s.containers[Name(p, d) := true], admission := Released(s, p)))
    case DeployFails(p) => Goto(s, p, Unwinding(s.commands[p].d)).(admission := Released(s, p))
    case ActivateCandidate(p, ok) =>
      var d := s.commands[p].d;
      if ok then Goto(s, p, Finalizing(d)).(routes := s.routes[p := d]) else Goto(s, p, Unwinding(d))
    case StopPrevious(p, d) => s.(containers := s.containers[Name(p, d) := false])
    case RemovePrevious(p, d) => s.(containers := s.containers - {Name(p, d)})
    case CleanupCandidate(p, removed) =>
      Done(if removed then s.(containers := s.containers - {Name(p, s.commands[p].d)}) else s, p)
    case BeginRestart(p, d) => Goto(s, p, Reviving(d))
    case BeginWake(p, d) => Goto(s, p, Reviving(d))
    case BeginRefresh(p, d) => Goto(s, p, Rerouting(d))
    case Revive(p) =>
      var d := s.commands[p].d;
      if Name(p, d) in s.containers then Goto(s, p, Rerouting(d)).(containers := s.containers[Name(p, d) := true])
      else Done(s, p)
    case Reroute(p, ok) => Done(if ok then s.(routes := s.routes[p := s.commands[p].d]) else s, p)
    case BeginStop(p, d, remove) =>
      Goto(s, p, if Name(p, d) in s.containers then Stopping(d, remove) else Unrouting(d, remove))
    case StopWorkload(p) =>
      var d := s.commands[p].d;
      Goto(s, p, Unrouting(d, s.commands[p].remove)).(
        containers := if Name(p, d) in s.containers then s.containers[Name(p, d) := false] else s.containers)
    case Unroute(p, ok) =>
      var d := s.commands[p].d;
      if !ok then Done(s, p)
      else
        var rest := if p in s.routes && s.routes[p] == d then s.routes - {p} else s.routes;
        (if s.commands[p].remove && Name(p, d) in s.containers then Goto(s, p, Removing(d)) else Done(s, p)).(
          routes := rest)
    case RemoveWorkload(p) => Done(s.(containers := s.containers - {Name(p, s.commands[p].d)}), p)
    case End(p) => Done(s, p)
    case Crash(name) => s.(containers := s.containers[name := false])
    case CleanStaleRoute(p) => s.(routes := s.routes - {p})
  }

  function Run(start: State, events: seq<Event>, limit: nat): (r: Option<State>) {
    if events == [] then Some(start)
    else
      var last := |events| - 1;
      match Run(start, events[..last], limit)
      case None => None
      case Some(s) => if Enabled(s, events[last]) then Some(Next(s, events[last], limit)) else None
  }

  lemma RunStarts(start: State, limit: nat)
    ensures Run(start, [], limit) == Some(start)
  {
  }

  lemma RunGoesOn(start: State, events: seq<Event>, e: Event, s: State, limit: nat) returns (more: seq<Event>)
    requires Run(start, events, limit) == Some(s) && Enabled(s, e)
    ensures more == events + [e] && Run(start, more, limit) == Some(Next(s, e, limit))
  {
    hide Next, Enabled;
    more := events + [e];
    assert more[..|more| - 1] == events;
  }

  // ------------------------------------------------------------ routes name containers that are there

  /** The route file of the project, if there is one, names another deployment. */
  predicate NotRouted(s: State, p: Project, d: Deployment) {
    p in s.routes ==> s.routes[p] != d
  }

  /** What a command relies on at each of its steps. */
  predicate Ready(s: State, p: Project, pc: Pc) {
    match pc
    case Building(d) => NotRouted(s, p, d) && Name(p, d) !in s.containers && d in s.used
    case Checking(d) => NotRouted(s, p, d) && Name(p, d) !in s.containers && d in s.used
    case Starting(d) => NotRouted(s, p, d) && Name(p, d) !in s.containers && d in s.used
    case Activating(d) => NotRouted(s, p, d) && Name(p, d) in s.containers
    case Finalizing(d) => Name(p, d) in s.containers && (p in s.routes ==> s.routes[p] == d)
    case Unwinding(d) => NotRouted(s, p, d)
    case Reviving(d) => Name(p, d) in s.containers
    case Rerouting(d) => Name(p, d) in s.containers
    case Stopping(_, _) => true
    case Unrouting(_, _) => true
    case Removing(d) => NotRouted(s, p, d)
  }

  ghost predicate Inv(s: State) {
    && (forall p :: p in s.routes ==> Name(p, s.routes[p]) in s.containers)
    && (forall n :: n in s.containers ==> n.deployment in s.used)
    && (forall p :: p in s.commands ==> Ready(s, p, s.commands[p]))
  }

  /** The project an event is about; `Crash` and `CleanStaleRoute` belong to no command. */
  function Actor(e: Event): (p: Project) {
    match e
    case Crash(name) => name.project
    case _ => e.p
  }

  predicate IsDeploy(e: Event) {
    e.BeginDeploy? || e.LockAdmission? || e.CheckCapacity? || e.RunContainer? || e.DeployFails?
    || e.ActivateCandidate? || e.StopPrevious? || e.RemovePrevious? || e.CleanupCandidate?
  }

  /** The other projects are as they were. */
  ghost predicate Untouched(s: State, next: State, q: Project) {
    && (q in next.routes <==> q in s.routes)
    && (q in s.routes ==> next.routes[q] == s.routes[q])
    && (q in next.commands <==> q in s.commands)
    && (q in s.commands ==> next.commands[q] == s.commands[q])
    && (forall d :: Name(q, d) in next.containers <==> Name(q, d) in s.containers)
    && s.used <= next.used
  }

  lemma DeployLeavesOthers(s: State, e: Event, limit: nat, q: Project)
    requires Enabled(s, e) && q != Actor(e) && IsDeploy(e)
    ensures Untouched(s, Next(s, e, limit), q)
  {
    hide Admits;
  }

  lemma LifecycleLeavesOthers(s: State, e: Event, limit: nat, q: Project)
    requires Enabled(s, e) && q != Actor(e) && !IsDeploy(e)
    ensures Untouched(s, Next(s, e, limit), q)
  {
    hide Admits;
  }

  lemma OthersUntouched(s: State, e: Event, limit: nat, q: Project)
    requires Enabled(s, e) && q != Actor(e)
    ensures Untouched(s, Next(s, e, limit), q)
  {
    hide Next, Enabled, Untouched;
    if IsDeploy(e) {
      DeployLeavesOthers(s, e, limit, q);
    } else {
      LifecycleLeavesOthers(s, e, limit, q);
    }
  }

  /** The project of the event still has what it relies on. */
  ghost predicate Settled(next: State, p: Project) {
    && (p in next.routes ==> Name(p, next.routes[p]) in next.containers)
    && (p in next.commands ==> Ready(next, p, next.commands[p]))
    && (forall d :: Name(p, d) in next.containers ==> d in next.used)
  }

  lemma DeploySettles(s: State, e: Event, limit: nat)
    requires Settled(s, Actor(e)) && Enabled(s, e) && IsDeploy(e)
    ensures Settled(Next(s, e, limit), Actor(e))
  {
    hide Admits;
  }

  lemma LifecycleSettles(s: State, e: Event, limit: nat)
    requires Settled(s, Actor(e)) && Enabled(s, e) && !IsDeploy(e)
    ensures Settled(Next(s, e, limit), Actor(e))
  {
    hide Admits;
  }

  lemma OwnStep(s: State, e: Event, limit: nat)
    requires Inv(s) && Enabled(s, e)
    ensures Settled(Next(s, e, limit), Actor(e))
  {
    hide Next, Enabled;
    var p := Actor(e);
    assert Settled(s, p) by {
      hide Ready;
      assert forall d :: Name(p, d) in s.containers ==> Name(p, d).deployment in s.used;
    }
    if IsDeploy(e) {
      DeploySettles(s, e, limit);
    } else {
      LifecycleSettles(s, e, limit);
    }
  }

  lemma ReadyStays(s: State, next: State, q: Project, pc: Pc)
    requires Ready(s, q, pc)
    requires (q in next.routes <==> q in s.routes) && (q in s.routes ==> next.routes[q] == s.routes[q])
    requires (forall d :: Name(q, d) in next.containers <==> Name(q, d) in s.containers) && s.used <= next.used
    ensures Ready(next, q, pc)
  {
  }

  lemma Step(s: State, e: Event, limit: nat)
    requires Inv(s) && Enabled(s, e)
    ensures Inv(Next(s, e, limit))
  {
    hide Next, Enabled, Ready;
    var next, p := Next(s, e, limit), Actor(e);
    OwnStep(s, e, limit);
    forall q | q in next.routes ensures Name(q, next.routes[q]) in next.containers {
      if q != p {
        OthersUntouched(s, e, limit, q);
      }
    }
    forall n | n in next.containers ensures n.deployment in next.used {
      if n.project != p {
        OthersUntouched(s, e, limit, n.project);
        assert Name(n.project, n.deployment) in s.containers;
      }
      assert n == Name(n.project, n.deployment);
    }
    forall q | q in next.commands ensures Ready(next, q, next.commands[q]) {
      if q != p {
        OthersUntouched(s, e, limit, q);
        ReadyStays(s, next, q, s.commands[q]);
      }
    }
  }

  /** A node as the agent finds it: routes name containers that exist, and nothing is under way. */
  ghost predicate Initial(s: State) {
    && s.commands == map[] && s.admission == None
    && (forall p :: p in s.routes ==> Name(p, s.routes[p]) in s.containers)
    && (forall n :: n in s.containers ==> n.deployment in s.used)
  }

  /**
   In every run of deployments, stops, sleeps, wakes, restarts, route refreshes
   and stale-route cleanups, a route file names a container that the agent has
   not removed.
   */
  lemma {:induction false} RoutesNameContainers(start: State, events: seq<Event>, limit: nat)
    requires Initial(start) && Run(start, events, limit).Some?
    ensures Inv(Run(start, events, limit).value)
    ensures var s := Run(start, events, limit).value;
            forall p :: p in s.routes ==> Name(p, s.routes[p]) in s.containers
  {
    hide Next, Enabled, Ready;
    if events != [] {
      var last := |events| - 1;
      RoutesNameContainers(start, events[..last], limit);
      Step(Run(start, events[..last], limit).value, events[last], limit);
    }
  }
}
