/**
 Route files (crates/sakala-agent-runtime/src/routing/caddy_file.rs): one file a
 project, written and removed as a transaction with the Caddy reload, and owned
 by the deployment its header names.

 The directory is the map `files` from names to contents. Whether an operation
 of the file system or of Caddy fails is a parameter. The mutation lock makes
 `Activate` and `Deactivate` atomic towards each other; discovery takes no lock,
 so what it reads and what it later removes may differ.
 */
module RouteFiles {
  import opened Wrappers
  import opened UuidText

  const MANAGED_ROUTE_PREFIX := "# Managed by sakala-agent for project "

  datatype RouteSpec = RouteSpec(projectId: Uuid, deploymentId: Uuid, domain: string, upstream: string, port: nat)

  /** No deployment id means a route written before headers named one. */
  datatype RouteIdentity = RouteIdentity(projectId: Uuid, deploymentId: Option<Uuid>)

  datatype RuntimeError = Io | Routing | Reload

  type Files = map<string, string>

  function RoutePath(projectId: Uuid): (name: string) {
    projectId + ".Caddyfile"
  }

  function TemporaryPath(projectId: Uuid): (name: string) {
    "." + projectId + ".Caddyfile.tmp"
  }

  function Decimal(n: nat): (text: string) {
    var digit := [('0' as int + n % 10) as char];
    if n < 10 then digit else Decimal(n / 10) + digit
  }

  function OwnedPrefix(projectId: Uuid): (prefix: string) {
    MANAGED_ROUTE_PREFIX + projectId
  }

  /** The line `write_route` starts a file with, and `remove_route` expects. */
  function Header(projectId: Uuid, deploymentId: Uuid): (line: string) {
    OwnedPrefix(projectId) + " deployment " + deploymentId + "."
  }

  function Content(route: RouteSpec): (content: string) {
    Header(route.projectId, route.deploymentId) + "\n" + route.domain + ":80 {\n\treverse_proxy "
    + route.upstream + ":" + Decimal(route.port) + "\n}\n"
  }

  function LegacyPrefix(projectId: Uuid): (prefix: string) {
    OwnedPrefix(projectId) + "."
  }

  predicate Owned(content: string, projectId: Uuid) {
    LegacyPrefix(projectId) <= content || OwnedPrefix(projectId) + " deployment " <= content
  }

  /** The generation check of `remove_route`. */
  predicate Carries(content: string, identity: RouteIdentity) {
    match identity.deploymentId
    case Some(deploymentId) => Header(identity.projectId, deploymentId) <= content
    case None => LegacyPrefix(identity.projectId) <= content
  }

  // ------------------------------------------------------------ reading a header back

  /** Length of the text before the first line feed. */
  function LineEnd(content: string): (n: nat)
    ensures n <= |content|
    ensures n < |content| ==> content[n] == '\n'
    ensures forall k :: 0 <= k < n ==> content[k] != '\n'
  {
    if content == [] || content[0] == '\n' then 0 else 1 + LineEnd(content[1..])
  }

  /** `content.lines().next()`, without a trailing carriage return; no line in an empty text. */
  function FirstLine(content: string): (line: Option<string>) {
    if content == [] then None
    else
      var line := content[..LineEnd(content)];
      if line != [] && line[|line| - 1] == '\r' && LineEnd(content) < |content| then Some(line[..|line| - 1])
      else Some(line)
  }

  function StripPrefix(s: string, prefix: string): (r: Option<string>) {
    if prefix <= s then Some(s[|prefix|..]) else None
  }

  function StripSuffix(s: string, suffix: string): (r: Option<string>) {
    if |suffix| <= |s| && s[|s| - |suffix|..] == suffix then Some(s[..|s| - |suffix|]) else None
  }

  /** The deployment a file of the project belongs to, as discovery reads it. */
  function Generation(content: string, projectId: Uuid): (deploymentId: Option<Uuid>) {
    match FirstLine(content)
    case None => None
    case Some(line) =>
      match StripPrefix(line, OwnedPrefix(projectId) + " deployment ")
      case None => None
      case Some(value) =>
        match StripSuffix(value, ".")
        case None => None
        case Some(text) => Parse(text)
  }

  lemma HeaderHasNoBreak(projectId: Uuid, deploymentId: Uuid)
    ensures forall k :: 0 <= k < |Header(projectId, deploymentId)| ==>
              Header(projectId, deploymentId)[k] != '\n'
  {
    assert forall k :: 0 <= k < |projectId| ==> projectId[k] != '\n';
    assert forall k :: 0 <= k < |deploymentId| ==> deploymentId[k] != '\n';
  }

  lemma FirstLineOf(line: string, rest: string)
    requires line != [] && line[|line| - 1] != '\r' && forall k :: 0 <= k < |line| ==> line[k] != '\n'
    ensures FirstLine(line + "\n" + rest) == Some(line)
  {
    var content := line + "\n" + rest;
    assert content[|line|] == '\n';
    assert LineEnd(content) == |line| by {
      assert forall k :: 0 <= k < |line| ==> content[k] == line[k];
    }
    assert content[..|line|] == line;
  }

  lemma HeaderParses(projectId: Uuid, deploymentId: Uuid, rest: string)
    ensures Generation(Header(projectId, deploymentId) + "\n" + rest, projectId) == Some(deploymentId)
  {
    var line := Header(projectId, deploymentId);
    HeaderHasNoBreak(projectId, deploymentId);
    FirstLineOf(line, rest);
    var prefix := OwnedPrefix(projectId) + " deployment ";
    assert line == prefix + (deploymentId + ".");
    assert line[|prefix|..] == deploymentId + ".";
    assert (deploymentId + ".")[36..] == ".";
    assert (deploymentId + ".")[..36] == deploymentId;
    PrintedParses(deploymentId);
  }

  /** The header written for a deployment is read back as that deployment. */
  lemma WrittenHeaderParses(route: RouteSpec)
    ensures Generation(Content(route), route.projectId) == Some(route.deploymentId)
  {
    var rest := route.domain + ":80 {\n\treverse_proxy " + route.upstream + ":" + Decimal(route.port) + "\n}\n";
    assert Content(route) == Header(route.projectId, route.deploymentId) + "\n" + rest;
    HeaderParses(route.projectId, route.deploymentId, rest);
  }

  lemma HeadersDiffer(p: Uuid, d: Uuid, e: Uuid, content: string)
    requires Header(p, d) <= content && Header(p, e) <= content
    ensures d == e
  {
    var prefix := OwnedPrefix(p) + " deployment ";
    var at := |prefix|;
    assert Header(p, d) == prefix + d + "." && Header(p, e) == prefix + e + ".";
    forall k | 0 <= k < 36 ensures d[k] == e[k] {
      assert Header(p, d)[at + k] == d[k] && Header(p, e)[at + k] == e[k];
      assert content[at + k] == d[k];
    }
  }

  lemma LegacyIsNotModern(p: Uuid, content: string)
    ensures !(LegacyPrefix(p) <= content && OwnedPrefix(p) + " deployment " <= content)
  {
    var at := |OwnedPrefix(p)|;
    assert LegacyPrefix(p)[at] == '.';
    assert (OwnedPrefix(p) + " deployment ")[at] == ' ';
  }

  /** A file that was written for a deployment is removed for that deployment only, and never as a legacy route. */
  lemma WrittenCarries(route: RouteSpec, identity: RouteIdentity)
    requires identity.projectId == route.projectId
    ensures Owned(Content(route), route.projectId)
    ensures Carries(Content(route), identity) <==> identity.deploymentId == Some(route.deploymentId)
  {
    var content := Content(route);
    var header := Header(route.projectId, route.deploymentId);
    assert header <= content;
    assert OwnedPrefix(route.projectId) + " deployment " <= header;
    LegacyIsNotModern(route.projectId, content);
    match identity.deploymentId {
      case None =>
      case Some(deploymentId) =>
        if Carries(content, identity) {
          HeadersDiffer(route.projectId, route.deploymentId, deploymentId, content);
        }
    }
  }

  // ------------------------------------------------------------ reading a whole file back

  const SITE_OPENS := ":80 {"
  const SITE_CLOSES := "}\n"
  const PROXY := "\treverse_proxy "

  /** The number a text of decimal digits stands for. */
  function Value(digits: string): (n: int) {
    if digits == [] then 0
    else 10 * Value(digits[..|digits| - 1]) + (digits[|digits| - 1] as int - '0' as int)
  }

  lemma {:induction false} DecimalReads(n: nat)
    ensures Value(Decimal(n)) == n && Decimal(n) != []
    ensures forall k :: 0 <= k < |Decimal(n)| ==> '0' <= Decimal(n)[k] <= '9'
  {
    var digit := [('0' as int + n % 10) as char];
    if n < 10 {
      assert digit[..0] == [];
    } else {
      DecimalReads(n / 10);
      assert (Decimal(n / 10) + digit)[..|Decimal(n / 10)|] == Decimal(n / 10);
    }
  }

  /** The rest of the text behind its first line feed. */
  function Behind(content: string): (rest: string) {
    if LineEnd(content) < |content| then content[LineEnd(content) + 1..] else []
  }

  /** What a site block serves: domain, upstream and port, read from its second and third line. */
  function Serves(content: string): (site: Option<(string, string, int)>) {
    var second := Behind(content);
    var third := Behind(second);
    match (StripSuffix(second[..LineEnd(second)], SITE_OPENS),
           StripPrefix(third[..LineEnd(third)], PROXY))
    case (Some(domain), Some(target)) =>
      var at := ColonAt(target, |target|);
      if at < |target| then Some((domain, target[..at], Value(target[at + 1..]))) else None
    case _ => None
  }

  /** The last colon before `n`, or the end of the text. */
  function ColonAt(text: string, n: nat): (at: nat)
    requires n <= |text|
    ensures at <= |text|
  {
    if n == 0 then |text| else if text[n - 1] == ':' then n - 1 else ColonAt(text, n - 1)
  }

  lemma {:induction false} ColonIs(text: string, n: nat, at: nat)
    requires at < n <= |text| && text[at] == ':' && forall k :: at < k < n ==> text[k] != ':'
    ensures ColonAt(text, n) == at
  {
    if at < n - 1 {
      ColonIs(text, n - 1, at);
    }
  }

  lemma LineSplits(line: string, rest: string)
    requires '\n' !in line
    ensures var content := line + "\n" + rest;
            LineEnd(content) == |line| && content[..|line|] == line && Behind(content) == rest
  {
    var content := line + "\n" + rest;
    assert content[|line|] == '\n';
    assert forall k :: 0 <= k < |line| ==> content[k] == line[k];
  }

  /** A written file serves what it was written for. */
  lemma WrittenServes(route: RouteSpec)
    requires '\n' !in route.domain && '\n' !in route.upstream
    ensures Serves(Content(route)) == Some((route.domain, route.upstream, route.port))
  {
    hide Header, Decimal, Value, Serves, Content;
    var first, port := Header(route.projectId, route.deploymentId), Decimal(route.port);
    var second, third := route.domain + SITE_OPENS, PROXY + route.upstream + ":" + port;
    DecimalReads(route.port);
    HeaderHasNoBreak(route.projectId, route.deploymentId);
    WrittenLines(route, first, second, third);
    SecondReads(route.domain);
    ThirdReads(route.upstream, port);
    LinesServe(first, second, third, route.domain, route.upstream, port);
  }

  lemma LinesServe(first: string, second: string, third: string, domain: string, upstream: string, port: string)
    requires '\n' !in first && '\n' !in second && '\n' !in third
    requires StripSuffix(second, SITE_OPENS) == Some(domain)
    requires var target := upstream + ":" + port;
             && StripPrefix(third, PROXY) == Some(target)
             && ColonAt(target, |target|) == |upstream|
    ensures Serves(first + "\n" + (second + "\n" + (third + "\n" + SITE_CLOSES)))
            == Some((domain, upstream, Value(port)))
  {
    hide Value, LineEnd, Behind, ColonAt, StripSuffix, StripPrefix;
    var target := upstream + ":" + port;
    LineSplits(first, second + "\n" + (third + "\n" + SITE_CLOSES));
    LineSplits(second, third + "\n" + SITE_CLOSES);
    LineSplits(third, SITE_CLOSES);
    assert target[..|upstream|] == upstream && target[|upstream| + 1..] == port;
  }

  lemma WrittenLines(route: RouteSpec, first: string, second: string, third: string)
    requires first == Header(route.projectId, route.deploymentId) && second == route.domain + SITE_OPENS
    requires third == PROXY + route.upstream + ":" + Decimal(route.port)
    ensures Content(route) == first + "\n" + (second + "\n" + (third + "\n" + SITE_CLOSES))
  {
    hide Header, Decimal;
  }

  lemma SecondReads(domain: string)
    ensures StripSuffix(domain + SITE_OPENS, SITE_OPENS) == Some(domain)
  {
  }

  lemma ThirdReads(upstream: string, port: string)
    requires port != [] && forall k :: 0 <= k < |port| ==> '0' <= port[k] <= '9'
    ensures var line, target := PROXY + upstream + ":" + port, upstream + ":" + port;
            && StripPrefix(line, PROXY) == Some(target)
            && ColonAt(target, |target|) == |upstream| && '\n' !in port
  {
    var line, target := PROXY + upstream + ":" + port, upstream + ":" + port;
    assert line == PROXY + target;
    assert target[|upstream|] == ':';
    assert forall k :: |upstream| < k < |target| ==> target[k] == port[k - |upstream| - 1];
    ColonIs(target, |target|, |upstream|);
  }

  // ------------------------------------------------------------ discovery

  datatype StaleRoute = StaleRoute(projectId: Uuid, deploymentId: Option<Uuid>)

  /** The project a directory entry is named for. */
  function ProjectOf(name: string): (projectId: Option<Uuid>) {
    match StripSuffix(name, ".Caddyfile")
    case None => None
    case Some(project) => Parse(project)
  }

  predicate Known(known: set<RouteIdentity>, projectId: Uuid, deploymentId: Option<Uuid>) {
    match deploymentId
    case Some(_) => RouteIdentity(projectId, deploymentId) in known
    case None => exists identity :: identity in known && identity.projectId == projectId
  }

  /** What discovery makes of one file and its content. */
  function Inspect(name: string, content: string, known: set<RouteIdentity>): (stale: Option<StaleRoute>) {
    match ProjectOf(name)
    case None => None
    case Some(projectId) =>
      if !(OwnedPrefix(projectId) <= content) then None
      else
        var deploymentId := Generation(content, projectId);
        if Known(known, projectId, deploymentId) then None else Some(StaleRoute(projectId, deploymentId))
  }

  /** A file is only opened if its name is one of a route. */
  function Findings(names: seq<string>, contents: nat -> Option<string>, known: set<RouteIdentity>, n: nat)
      : (stale: Option<seq<StaleRoute>>)
    requires n <= |names|
  {
    if n == 0 then Some([])
    else
      match Findings(names, contents, known, n - 1)
      case None => None
      case Some(before) =>
        if ProjectOf(names[n - 1]).None? then Some(before)
        else
          match contents(n - 1)
          case None => None
          case Some(content) =>
            match Inspect(names[n - 1], content, known)
            case None => Some(before)
            case Some(found) => Some(before + [found])
  }

  /**
   `discover_stale_routes`: `names` are the regular files the directory yields,
   `contents(i)` what reading the i-th one returns at that moment, if it can be read.
   */
  method DiscoverStaleRoutes(names: seq<string>, contents: nat -> Option<string>, known: set<RouteIdentity>)
      returns (stale: Option<seq<StaleRoute>>)
    ensures stale == Findings(names, contents, known, |names|)
  {
    var found: seq<StaleRoute> := [];
    for i := 0 to |names|
      invariant Findings(names, contents, known, i) == Some(found)
    {
      if ProjectOf(names[i]).Some? {
        var content := contents(i);
        if content.None? {
          FailureStays(names, contents, known, i + 1, |names|);
          return None;
        }
        var route := Inspect(names[i], content.value, known);
        if route.Some? {
          found := found + [route.value];
        }
      }
    }
    return Some(found);
  }

  lemma {:induction false} FailureStays(names: seq<string>, contents: nat -> Option<string>,
                                        known: set<RouteIdentity>, i: nat, n: nat)
    requires i <= n <= |names| && Findings(names, contents, known, i).None?
    ensures Findings(names, contents, known, n).None?
  {
    if i < n {
      FailureStays(names, contents, known, i, n - 1);
    }
  }

  /** Each route found stale was read with that generation from an owned file, and was not known. */
  lemma {:induction false} FoundIsUnknown(names: seq<string>, contents: nat -> Option<string>,
                                          known: set<RouteIdentity>, n: nat, route: StaleRoute)
    requires n <= |names| && Findings(names, contents, known, n).Some?
    requires route in Findings(names, contents, known, n).value
    ensures !Known(known, route.projectId, route.deploymentId)
    ensures exists i: nat ::
              && i < n && contents(i).Some? && ProjectOf(names[i]) == Some(route.projectId)
              && OwnedPrefix(route.projectId) <= contents(i).value
              && Generation(contents(i).value, route.projectId) == route.deploymentId
  {
    hide Generation, ProjectOf;
    var before := Findings(names, contents, known, n - 1);
    if route in before.value {
      FoundIsUnknown(names, contents, known, n - 1, route);
    } else {
      assert contents(n - 1).Some? && Inspect(names[n - 1], contents(n - 1).value, known) == Some(route);
    }
  }

  /** The i-th entry is a file of that project whose first line names that generation, and no such route is known. */
  ghost predicate IsStaleFile(names: seq<string>, contents: nat -> Option<string>, known: set<RouteIdentity>,
                              i: nat, route: StaleRoute)
  {
    && i < |names| && contents(i).Some? && ProjectOf(names[i]) == Some(route.projectId)
    && OwnedPrefix(route.projectId) <= contents(i).value
    && Generation(contents(i).value, route.projectId) == route.deploymentId
    && match route.deploymentId
       case Some(_) => RouteIdentity(route.projectId, route.deploymentId) !in known
       case None => forall identity :: identity in known ==> identity.projectId != route.projectId
  }

  /** Discovery fails exactly if it cannot read some file that is named like a route. */
  lemma {:induction false} DiscoveryFailsIff(names: seq<string>, contents: nat -> Option<string>,
                                             known: set<RouteIdentity>, n: nat)
    requires n <= |names|
    ensures Findings(names, contents, known, n).None? <==>
              exists i: nat :: i < n && ProjectOf(names[i]).Some? && contents(i).None?
  {
    hide ProjectOf, Generation, Known;
    if n > 0 {
      DiscoveryFailsIff(names, contents, known, n - 1);
    }
  }

  /** It finds a route exactly if some file of the directory is that stale route. */
  lemma {:induction false} FoundIff(names: seq<string>, contents: nat -> Option<string>, known: set<RouteIdentity>,
                                    n: nat, route: StaleRoute)
    requires n <= |names| && Findings(names, contents, known, n).Some?
    ensures route in Findings(names, contents, known, n).value <==>
              exists i: nat :: i < n && IsStaleFile(names, contents, known, i, route)
  {
    hide ProjectOf, Generation;
    if n > 0 {
      FoundIff(names, contents, known, n - 1, route);
      if ProjectOf(names[n - 1]).Some? {
        InspectIff(names, contents, known, n - 1, route);
      }
      hide Inspect, IsStaleFile;
      LastFound(names, contents, known, n, route);
    }
  }

  lemma InspectIff(names: seq<string>, contents: nat -> Option<string>, known: set<RouteIdentity>, i: nat,
                   route: StaleRoute)
    requires i < |names| && ProjectOf(names[i]).Some?
    ensures contents(i).Some? ==>
              (Inspect(names[i], contents(i).value, known) == Some(route) <==>
               IsStaleFile(names, contents, known, i, route))
  {
    hide ProjectOf, Generation;
  }

  lemma LastFound(names: seq<string>, contents: nat -> Option<string>, known: set<RouteIdentity>, n: nat,
                  route: StaleRoute)
    requires 0 < n <= |names| && Findings(names, contents, known, n).Some?
    ensures Findings(names, contents, known, n - 1).Some?
    ensures route in Findings(names, contents, known, n).value <==>
              || route in Findings(names, contents, known, n - 1).value
              || (&& ProjectOf(names[n - 1]).Some? && contents(n - 1).Some?
                  && Inspect(names[n - 1], contents(n - 1).value, known) == Some(route))
  {
    hide ProjectOf, Inspect;
  }

  /** The name `write_route` gives a file is read back as its project. */
  lemma PathParses(projectId: Uuid)
    ensures ProjectOf(RoutePath(projectId)) == Some(projectId)
  {
    var name := RoutePath(projectId);
    assert name[|name| - |".Caddyfile"|..] == ".Caddyfile" && name[..|name| - |".Caddyfile"|] == projectId;
    PrintedParses(projectId);
  }

  /** A file the agent wrote is stale exactly if its deployment is not among the known routes. */
  lemma WrittenIsStaleIff(names: seq<string>, contents: nat -> Option<string>, known: set<RouteIdentity>, i: nat,
                          written: RouteSpec, route: StaleRoute)
    requires i < |names| && names[i] == RoutePath(written.projectId) && contents(i) == Some(Content(written))
    ensures IsStaleFile(names, contents, known, i, route) <==>
              && route == StaleRoute(written.projectId, Some(written.deploymentId))
              && RouteIdentity(written.projectId, Some(written.deploymentId)) !in known
  {
    PathParses(written.projectId);
    WrittenHeaderParses(written);
    ContentIsOwned(written);
    hide ProjectOf, Generation, Content, RoutePath;
  }

  lemma ContentIsOwned(written: RouteSpec)
    ensures OwnedPrefix(written.projectId) <= Content(written)
  {
    assert Header(written.projectId, written.deploymentId) <= Content(written);
    assert OwnedPrefix(written.projectId) <= Header(written.projectId, written.deploymentId);
  }

  /** A legacy file is stale exactly if nothing of its project is known. */
  lemma LegacyIsStaleIff(names: seq<string>, contents: nat -> Option<string>, known: set<RouteIdentity>, i: nat,
                         projectId: Uuid, route: StaleRoute)
    requires i < |names| && names[i] == RoutePath(projectId)
    requires contents(i).Some? && LegacyPrefix(projectId) <= contents(i).value
    ensures IsStaleFile(names, contents, known, i, route) <==>
              && route == StaleRoute(projectId, None)
              && forall identity :: identity in known ==> identity.projectId != projectId
  {
    PathParses(projectId);
    LegacyHasNoGeneration(projectId, contents(i).value);
    hide ProjectOf, Generation, RoutePath;
    assert OwnedPrefix(projectId) <= LegacyPrefix(projectId);
  }

  lemma LegacyHasNoGeneration(projectId: Uuid, content: string)
    requires LegacyPrefix(projectId) <= content
    ensures Generation(content, projectId).None?
  {
    var prefix, at := OwnedPrefix(projectId) + " deployment ", |OwnedPrefix(projectId)|;
    assert content[at] == LegacyPrefix(projectId)[at] == '.';
    var line := FirstLine(content);
    assert line.Some? && line.value <= content by {
      assert content[..LineEnd(content)] <= content;
    }
    assert prefix[at] == ' ';
  }

  // ------------------------------------------------------------ the transactions

  /** What of one call goes wrong. A write that fails may leave anything behind. */
  datatype Faults = Faults(
    directory: bool,
    read: bool,
    temporary: Option<string>,
    rename: bool,
    remove: bool,
    reload: bool,
    restore: Option<string>)

  datatype RouteSnapshot = RouteSnapshot(path: string, previous: Option<string>, changed: bool)

  lemma TemporaryIsNoRoute(p: Uuid, q: Uuid)
    ensures TemporaryPath(p) != RoutePath(q)
  {
    assert TemporaryPath(p)[0] == '.' && RoutePath(q)[0] == q[0];
  }

  lemma PathsDiffer(p: Uuid, q: Uuid)
    ensures RoutePath(p) == RoutePath(q) ==> p == q
  {
    assert RoutePath(p)[..36] == p && RoutePath(q)[..36] == q;
  }

  /** The route files of all projects but one are the same. */
  ghost predicate OthersKept(before: Files, after: Files, p: Uuid) {
    forall q: Uuid :: q != p ==>
      && (RoutePath(q) in after <==> RoutePath(q) in before)
      && (RoutePath(q) in before ==> after[RoutePath(q)] == before[RoutePath(q)])
  }

  lemma OthersAreKept(before: Files, after: Files, p: Uuid)
    requires after - {RoutePath(p), TemporaryPath(p)} == before - {RoutePath(p), TemporaryPath(p)}
    ensures OthersKept(before, after, p)
  {
    forall q: Uuid | q != p
      ensures RoutePath(q) in after <==> RoutePath(q) in before
      ensures RoutePath(q) in before ==> after[RoutePath(q)] == before[RoutePath(q)]
    {
      PathsDiffer(p, q);
      TemporaryIsNoRoute(p, q);
      var name := RoutePath(q);
      assert name in after <==> name in after - {RoutePath(p), TemporaryPath(p)};
      assert name in before <==> name in before - {RoutePath(p), TemporaryPath(p)};
      assert name in before ==> (before - {RoutePath(p), TemporaryPath(p)})[name] == before[name];
      assert name in after ==> (after - {RoutePath(p), TemporaryPath(p)})[name] == after[name];
    }
  }

  lemma OthersKeptWithout(before: Files, after: Files, p: Uuid)
    requires after - {RoutePath(p)} == before - {RoutePath(p)}
    ensures OthersKept(before, after, p)
  {
    SameWithoutBoth(after, before, RoutePath(p), TemporaryPath(p));
    OthersAreKept(before, after, p);
  }

  lemma SameWithoutBoth(a: Files, b: Files, p: string, q: string)
    requires a - {p} == b - {p}
    ensures a - {p, q} == b - {p, q}
  {
    assert a - {p, q} == a - {p} - {q} && b - {p, q} == b - {p} - {q};
  }

  class CaddyFileRouteManager {
    var files: Files

    constructor (files: Files)
      ensures this.files == files
    {
      this.files := files;
    }

    function Previous(path: string): (content: Option<string>)
      reads this
    {
      if path in files then Some(files[path]) else None
    }

    method WriteRoute(route: RouteSpec, faults: Faults) returns (r: Result<RouteSnapshot, RuntimeError>)
      modifies this
      ensures var path, temporary := RoutePath(route.projectId), TemporaryPath(route.projectId);
              if r.Ok? then
                && r.value == RouteSnapshot(path, old(Previous(path)), true)
                && files == old(files)[path := Content(route)] - {temporary}
              else files - {temporary} == old(files) - {temporary}
      ensures r.Ok? <==> !faults.directory && !faults.read && faults.temporary.None? && !faults.rename
    {
      var path, temporary := RoutePath(route.projectId), TemporaryPath(route.projectId);
      TemporaryIsNoRoute(route.projectId, route.projectId);
      if faults.directory || faults.read {
        return Err(Io);
      }
      var previous := Previous(path);
      if faults.temporary.Some? {
        files := files[temporary := faults.temporary.value];
        return Err(Io);
      }
      files := files[temporary := Content(route)];
      if faults.rename {
        return Err(Io);
      }
      files := files[path := files[temporary]] - {temporary};
      return Ok(RouteSnapshot(path, previous, true));
    }

    /** `RouteSnapshot::restore`. */
    method Restore(snapshot: RouteSnapshot, failing: Option<string>) returns (r: Result<(), RuntimeError>)
      modifies this
      ensures failing.None? ==>
                && r.Ok?
                && files == if snapshot.previous.Some? then old(files)[snapshot.path := snapshot.previous.value]
                            else old(files) - {snapshot.path}
      ensures files - {snapshot.path} == old(files) - {snapshot.path}
    {
      match snapshot.previous {
        case Some(content) =>
          if failing.Some? {
            files := files[snapshot.path := failing.value];
            return Err(Io);
          }
          files := files[snapshot.path := content];
        case None =>
          if failing.Some? && snapshot.path in files {
            return Err(Io);
          }
          files := files - {snapshot.path};
      }
      return Ok(());
    }

    /**
     `activate`: the new file is in place and loaded, or, unless the rollback
     itself fails, every route file is as it was. No other project's file changes.
     */
    method Activate(route: RouteSpec, faults: Faults) returns (r: Result<(), RuntimeError>)
      modifies this
      ensures var path, temporary := RoutePath(route.projectId), TemporaryPath(route.projectId);
              && (r.Ok? ==> !faults.reload && files == old(files)[path := Content(route)] - {temporary})
              && (r.Err? && faults.restore.None? ==> files - {temporary} == old(files) - {temporary})
              && files - {path, temporary} == old(files) - {path, temporary}
      ensures r.Ok? <==>
                !faults.directory && !faults.read && faults.temporary.None? && !faults.rename && !faults.reload
      ensures OthersKept(old(files), files, route.projectId)
    {
      hide OthersKept;
      TemporaryIsNoRoute(route.projectId, route.projectId);
      var snapshot := WriteRoute(route, faults);
      if snapshot.Err? {
        assert files - {RoutePath(route.projectId), TemporaryPath(route.projectId)}
               == files - {TemporaryPath(route.projectId)} - {RoutePath(route.projectId)};
        OthersAreKept(old(files), files, route.projectId);
        return Err(snapshot.error);
      }
      if faults.reload {
        ghost var written := files;
        ghost var path, temporary := RoutePath(route.projectId), TemporaryPath(route.projectId);
        var restored := Restore(snapshot.value, faults.restore);
        SameWithoutBoth(files, written, path, temporary);
        OthersAreKept(old(files), files, route.projectId);
        if restored.Err? {
          return Err(restored.error);
        }
        return Err(Reload);
      }
      OthersAreKept(old(files), files, route.projectId);
      return Ok(());
    }

    method RemoveRoute(identity: RouteIdentity, faults: Faults) returns (r: Result<RouteSnapshot, RuntimeError>)
      modifies this
      ensures var path := RoutePath(identity.projectId);
              match r
              case Err(_) => files == old(files)
              case Ok(snapshot) =>
                && snapshot.path == path && snapshot.previous == old(Previous(path))
                && (snapshot.changed <==> path in old(files) && Carries(old(files)[path], identity))
                && files == (if snapshot.changed then old(files) - {path} else old(files))
      ensures var path := RoutePath(identity.projectId);
              r.Err? <==>
                || faults.read
                || (path in old(files) && !Owned(old(files)[path], identity.projectId))
                || (path in old(files) && Carries(old(files)[path], identity) && faults.remove)
    {
      var path := RoutePath(identity.projectId);
      if faults.read {
        return Err(Io);
      }
      var previous := Previous(path);
      if previous.Some? {
        var content := previous.value;
        if !Owned(content, identity.projectId) {
          return Err(Routing);
        }
        match identity.deploymentId {
          case Some(deploymentId) =>
            if !(Header(identity.projectId, deploymentId) <= content) {
              return Ok(RouteSnapshot(path, previous, false));
            }
          case None =>
            if !(LegacyPrefix(identity.projectId) <= content) {
              return Ok(RouteSnapshot(path, previous, false));
            }
        }
        if faults.remove {
          return Err(Io);
        }
        files := files - {path};
      }
      return Ok(RouteSnapshot(path, previous, previous.Some?));
    }

    /**
     `deactivate`: true means the file of exactly that generation is gone and
     nothing else changed; false means nothing changed, since there is no such
     file; an error leaves all files as they were, unless the rollback fails.
     */
    method Deactivate(identity: RouteIdentity, faults: Faults) returns (r: Result<bool, RuntimeError>)
      modifies this
      ensures var path := RoutePath(identity.projectId);
              match r
              case Ok(true) =>
                path in old(files) && Carries(old(files)[path], identity) && files == old(files) - {path}
              case Ok(false) =>
                (path in old(files) ==> !Carries(old(files)[path], identity)) && files == old(files)
              case Err(_) =>
                && (faults.restore.None? ==> files == old(files))
                && files - {path} == old(files) - {path}
      ensures var path := RoutePath(identity.projectId);
              path in old(files) && !Owned(old(files)[path], identity.projectId) ==> r.Err? && files == old(files)
      ensures var path := RoutePath(identity.projectId);
              r.Err? <==>
                || faults.read
                || (path in old(files) && !Owned(old(files)[path], identity.projectId))
                || (path in old(files) && Carries(old(files)[path], identity) && (faults.remove || faults.reload))
      ensures OthersKept(old(files), files, identity.projectId)
    {
      hide OthersKept;
      var snapshot := RemoveRoute(identity, faults);
      if snapshot.Err? {
        OthersKeptWithout(old(files), files, identity.projectId);
        return Err(snapshot.error);
      }
      if !snapshot.value.changed {
        OthersKeptWithout(old(files), files, identity.projectId);
        return Ok(false);
      }
      CarriedIsOwned(old(files)[RoutePath(identity.projectId)], identity);
      if faults.reload {
        var restored := Restore(snapshot.value, faults.restore);
        OthersKeptWithout(old(files), files, identity.projectId);
        if restored.Err? {
          return Err(restored.error);
        }
        return Err(Reload);
      }
      OthersKeptWithout(old(files), files, identity.projectId);
      return Ok(true);
    }

    /**
     `cleanup_stale_routes`. `others(i)` is what activations and deactivations of
     other tasks have made of the directory when the i-th stale route is handled.
     Each removal is recorded with the directory right before it.
     */
    method CleanupStaleRoutes(names: seq<string>, contents: nat -> Option<string>, known: set<RouteIdentity>,
                              others: nat -> Files, faults: nat -> Faults)
        returns (r: Result<nat, RuntimeError>, removals: seq<(Files, StaleRoute)>)
      modifies this
      ensures r.Ok? ==> r.value == |removals|
      ensures forall k :: 0 <= k < |removals| ==> Justified(removals[k].0, removals[k].1, names, contents, known)
      ensures r.Ok? ==>
                && Findings(names, contents, known, |names|).Some?
                && var stale := Findings(names, contents, known, |names|).value;
                   && removals == Removals(stale, others, |stale|)
                   && (stale != [] ==> files == AfterRemoval(others(|stale| - 1), stale[|stale| - 1]))
      ensures Findings(names, contents, known, |names|).None? ==> r.Err?
      ensures r.Err? && Findings(names, contents, known, |names|).Some? ==>
                var stale := Findings(names, contents, known, |names|).value;
                exists i :: 0 <= i < |stale| && Obstructed(others(i), stale[i], faults(i))
    {
      hide Findings, Known, Generation, ProjectOf, Justified, Removals, Carries;
      removals := [];
      var stale := DiscoverStaleRoutes(names, contents, known);
      if stale.None? {
        return Err(Io), removals;
      }
      var cleaned := 0;
      RemovalsStart(stale.value, others);
      for i := 0 to |stale.value|
        invariant cleaned == |removals|
        invariant forall k :: 0 <= k < |removals| ==> Justified(removals[k].0, removals[k].1, names, contents, known)
        invariant removals == Removals(stale.value, others, i)
        invariant i > 0 ==> files == AfterRemoval(others(i - 1), stale.value[i - 1])
      {
        files := others(i);
        var route := stale.value[i];
        RemovalsNext(stale.value, others, i);
        var removed := Deactivate(Identity(route), faults(i));
        if removed.Err? {
          return Err(removed.error), removals;
        }
        if removed.value {
          RemovalIsJustified(others(i), route, names, contents, known);
          removals := removals + [(others(i), route)];
          cleaned := cleaned + 1;
        }
      }
      return Ok(cleaned), removals;
    }
  }

  /** What makes handling a stale route fail: a fault, or a file at its place that the agent does not own. */
  predicate Obstructed(files: Files, route: StaleRoute, faults: Faults) {
    var path := RoutePath(route.projectId);
    || faults.read
    || (path in files && !Owned(files[path], route.projectId))
    || (path in files && Carries(files[path], Identity(route)) && (faults.remove || faults.reload))
  }

  function Identity(route: StaleRoute): RouteIdentity {
    RouteIdentity(route.projectId, route.deploymentId)
  }

  lemma CarriedIsOwned(content: string, identity: RouteIdentity)
    requires Carries(content, identity)
    ensures Owned(content, identity.projectId)
  {
    if identity.deploymentId.Some? {
      assert OwnedPrefix(identity.projectId) + " deployment "
             <= Header(identity.projectId, identity.deploymentId.value);
    }
  }

  /** The directory after a stale route was handled: without its file, if that still carries the generation. */
  function AfterRemoval(files: Files, route: StaleRoute): (after: Files) {
    var path := RoutePath(route.projectId);
    if path in files && Carries(files[path], Identity(route)) then files - {path} else files
  }

  /**
   A removal is justified: the route was read from an owned file during
   discovery, it was not known then, and the file still carried that very
   generation when it was removed.
   */
  ghost predicate Justified(before: Files, route: StaleRoute, names: seq<string>, contents: nat -> Option<string>,
                            known: set<RouteIdentity>)
  {
    && !Known(known, route.projectId, route.deploymentId)
    && (exists i: nat ::
          && i < |names| && contents(i).Some? && ProjectOf(names[i]) == Some(route.projectId)
          && Generation(contents(i).value, route.projectId) == route.deploymentId)
    && RoutePath(route.projectId) in before
    && Carries(before[RoutePath(route.projectId)], Identity(route))
  }

  /** The stale routes whose file still carries its generation when they are handled, each with the directory then. */
  function Removals(stale: seq<StaleRoute>, others: nat -> Files, n: nat): (removals: seq<(Files, StaleRoute)>)
    requires n <= |stale|
  {
    if n == 0 then []
    else
      var before, route := others(n - 1), stale[n - 1];
      Removals(stale, others, n - 1) + if AfterRemoval(before, route) != before then [(before, route)] else []
  }

  lemma RemovalsStart(stale: seq<StaleRoute>, others: nat -> Files)
    ensures Removals(stale, others, 0) == []
  {
  }

  lemma RemovalsNext(stale: seq<StaleRoute>, others: nat -> Files, i: nat)
    requires i < |stale|
    ensures Removals(stale, others, i + 1)
            == Removals(stale, others, i)
               + if AfterRemoval(others(i), stale[i]) != others(i) then [(others(i), stale[i])] else []
  {
  }

  lemma {:induction false} CarryingIsRemoved(stale: seq<StaleRoute>, others: nat -> Files, n: nat, k: nat)
    requires k < n <= |stale|
    requires RoutePath(stale[k].projectId) in others(k)
    requires Carries(others(k)[RoutePath(stale[k].projectId)], Identity(stale[k]))
    ensures (others(k), stale[k]) in Removals(stale, others, n)
  {
    hide Carries;
    if k < n - 1 {
      CarryingIsRemoved(stale, others, n - 1, k);
    } else {
      var path := RoutePath(stale[k].projectId);
      assert path in others(k) && path !in AfterRemoval(others(k), stale[k]);
    }
  }

  /**
   A file the agent wrote for a deployment that is not known is among the stale
   routes, and its route is among the removals if the file is still the same when
   its turn comes.
   */
  lemma UnknownRouteIsCleaned(names: seq<string>, contents: nat -> Option<string>, known: set<RouteIdentity>,
                              others: nat -> Files, i: nat, written: RouteSpec) returns (k: nat)
    requires Findings(names, contents, known, |names|).Some?
    requires i < |names| && names[i] == RoutePath(written.projectId) && contents(i) == Some(Content(written))
    requires RouteIdentity(written.projectId, Some(written.deploymentId)) !in known
    ensures var stale, path := Findings(names, contents, known, |names|).value, RoutePath(written.projectId);
            && k < |stale| && stale[k] == StaleRoute(written.projectId, Some(written.deploymentId))
            && (path in others(k) && others(k)[path] == Content(written) ==>
                  (others(k), stale[k]) in Removals(stale, others, |stale|)
                  && AfterRemoval(others(k), stale[k]) == others(k) - {path})
  {
    hide Findings, Carries, Content, RoutePath, Removals;
    var route := StaleRoute(written.projectId, Some(written.deploymentId));
    WrittenIsStaleIff(names, contents, known, i, written, route);
    hide IsStaleFile;
    FoundIff(names, contents, known, |names|, route);
    var stale := Findings(names, contents, known, |names|).value;
    k :| 0 <= k < |stale| && stale[k] == route;
    WrittenCarries(written, Identity(route));
    var path := RoutePath(written.projectId);
    if path in others(k) && others(k)[path] == Content(written) {
      CarryingIsRemoved(stale, others, |stale|, k);
    }
  }

  lemma RemovalIsJustified(before: Files, route: StaleRoute, names: seq<string>, contents: nat -> Option<string>,
                           known: set<RouteIdentity>)
    requires Findings(names, contents, known, |names|).Some?
    requires route in Findings(names, contents, known, |names|).value
    requires RoutePath(route.projectId) in before && Carries(before[RoutePath(route.projectId)], Identity(route))
    ensures Justified(before, route, names, contents, known)
  {
    hide Findings, Known, Generation, ProjectOf, Carries;
    FoundIsUnknown(names, contents, known, |names|, route);
  }

  /** A project that was activated for another deployment since discovery keeps its route. */
  lemma RewrittenRouteSurvives(files: Files, route: StaleRoute, rewritten: RouteSpec)
    requires rewritten.projectId == route.projectId && Some(rewritten.deploymentId) != route.deploymentId
    requires RoutePath(route.projectId) in files && files[RoutePath(route.projectId)] == Content(rewritten)
    ensures AfterRemoval(files, route) == files
  {
    WrittenCarries(rewritten, Identity(route));
  }
}
