/** `_checkPluginVersion` and the registry of plugins allowed to check. The
    Ore API is a parameter: the reply each of the three calls would get. */
module UpdateCheck {
  import opened Wrappers
  import opened Versions
  import opened VersionParser
  import opened Dependencies

  /** The reply to one call: its parsed body, or `Unavailable` when the
      connection fails, the status is not 200 or the body is not the JSON
      object expected; each of these throws inside the `try`. */
  datatype Reply<T> = Ok(body: T) | Unavailable

  /** The body of `/projects/<id>`: the `version` of each entry of
      `promoted_versions`, or `None` when that member is missing or null. */
  datatype Project = Project(promoted: Option<seq<string>>)

  /** The body of `/projects/<id>/versions/<version>`. */
  datatype Release = Release(description: string, dependencies: seq<Entry>)

  /** `session` is `None` when the reply has no `session` member. */
  datatype Server = Server(auth: Reply<Option<string>>, project: Reply<Project>, release: Reply<Release>)

  /** The calls, in the order the check makes them. */
  datatype Request =
    | Authenticate
    | GetProject(id: string, session: string)
    | GetRelease(id: string, version: string, session: string)

  /** The plugin being checked: its id, its version text (the optional of
      `getVersion()`), and the ids of the dependencies it declares. */
  datatype Plugin = Plugin(id: string, version: Option<string>, dependencies: set<string>)

  datatype Failure = Unreachable | NoSession | NoPromotedVersion | InvalidRemoteVersion

  /** How one check ends. `InvalidLocalVersion`: the plugin's own version is
      missing or does not parse, which is outside the `try` and escapes.
      `Failed`: the `catch` logged that Ore could not be reached.
      `ReleaseUnreachable`: a newer promoted version was announced, then the
      call for its release failed and the `catch` logged that Ore could not be
      reached.
      `UpdateAvailable`: a newer promoted version, its description and the
      dependency diff (`Aborted` when the diff threw after the announcement). */
  datatype Outcome =
    | Disabled
    | InvalidLocalVersion
    | Failed(reason: Failure)
    | UpToDate(remote: Version)
    | ReleaseUnreachable(remote: Version)
    | UpdateAvailable(remote: Version, description: string, dependencies: Diff)

  function LocalVersion(plugin: Plugin): Option<Version> {
    if plugin.version.Some? then Parse(plugin.version.value) else None
  }

  function Session(server: Server): Option<string> {
    if server.auth.Ok? then server.auth.body else None
  }

  /** The text of the first promoted version, when the project has one. */
  function PromotedText(server: Server): Option<string> {
    if server.project.Ok? && server.project.body.promoted.Some? && |server.project.body.promoted.value| > 0
    then Some(server.project.body.promoted.value[0])
    else None
  }

  /** The calls in order; a check makes a prefix of them. */
  function Protocol(plugin: Plugin, server: Server): seq<Request> {
    var session := if Session(server).Some? then Session(server).value else "";
    var text := if PromotedText(server).Some? then PromotedText(server).value else "";
    [Authenticate, GetProject(plugin.id, session), GetRelease(plugin.id, text, session)]
  }

  /** Everything needed to fetch the release went through, and the promoted
      version parses and is newer than the local one. */
  predicate Newer(plugin: Plugin, server: Server) {
    && LocalVersion(plugin).Some?
    && Session(server).Some?
    && PromotedText(server).Some?
    && Parse(PromotedText(server).value).Some?
    && Compare(Parse(PromotedText(server).value).value, LocalVersion(plugin).value) > 0
  }

  /** What one check does, stated outcome by outcome. */
  ghost predicate Performed(plugin: Plugin, server: Server, installed: map<string, Option<string>>, outcome: Outcome, requests: seq<Request>) {
    var local := LocalVersion(plugin);
    var remote := if PromotedText(server).Some? then Parse(PromotedText(server).value) else None;
    // at most the three calls, in order, each made once
    && requests <= Protocol(plugin, server)
    // the local version is read before any call
    && (outcome.InvalidLocalVersion? <==> local.None?)
    && (local.None? ==> requests == [])
    // authentication is always attempted once the local version is known
    && (local.Some? ==> |requests| >= 1)
    // a reply without a session stops the check
    && (outcome == Failed(NoSession) <==> local.Some? && server.auth.Ok? && server.auth.body.None?)
    && (local.Some? && Session(server).None? ==> |requests| == 1)
    // with a session, the project is always requested
    && (local.Some? && Session(server).Some? ==> |requests| >= 2)
    // a project without promoted versions stops the check
    && (outcome == Failed(NoPromotedVersion) <==>
          local.Some? && Session(server).Some? && server.project.Ok? && PromotedText(server).None?)
    && (outcome == Failed(InvalidRemoteVersion) <==>
          local.Some? && Session(server).Some? && PromotedText(server).Some? && remote.None?)
    // the release is fetched exactly when the promoted version is newer
    && (|requests| == 3 <==> Newer(plugin, server))
    && (outcome.UpToDate? <==>
          local.Some? && Session(server).Some? && remote.Some? && Compare(remote.value, local.value) <= 0)
    && (outcome.UpToDate? ==> outcome.remote == remote.value)
    && (outcome.ReleaseUnreachable? <==> Newer(plugin, server) && server.release.Unavailable?)
    && (outcome.ReleaseUnreachable? ==> outcome.remote == remote.value)
    && (outcome.UpdateAvailable? <==> Newer(plugin, server) && server.release.Ok?)
    && (outcome.UpdateAvailable? ==>
          && outcome.remote == remote.value
          && outcome.description == server.release.body.description
          && (outcome.dependencies.Aborted? <==> Aborts(server.release.body.dependencies, RequirementOf))
          && (outcome.dependencies.Report? ==>
                forall c :: c in outcome.dependencies.items <==>
                  Belongs(c, server.release.body.dependencies, installed, plugin.dependencies)))
    // every other way out is a failed call
    && (outcome == Failed(Unreachable) <==>
          || (local.Some? && server.auth.Unavailable?)
          || (local.Some? && Session(server).Some? && server.project.Unavailable?))
    && !outcome.Disabled?
  }

  /** `_checkPluginVersion`: the calls are made in order and each stops the
      check when it fails. `installed` maps each installed plugin to its
      version text. */
  method CheckVersion(plugin: Plugin, server: Server, installed: map<string, Option<string>>) returns (outcome: Outcome, requests: seq<Request>)
    ensures Performed(plugin, server, installed, outcome, requests)
  {
    requests := [];
    var local := LocalVersion(plugin);
    if local.None? {
      return InvalidLocalVersion, requests;
    }
    requests := [Authenticate];
    if server.auth.Unavailable? {
      return Failed(Unreachable), requests;
    }
    if server.auth.body.None? {
      return Failed(NoSession), requests;
    }
    var session := server.auth.body.value;
    requests := [Authenticate, GetProject(plugin.id, session)];
    if server.project.Unavailable? {
      return Failed(Unreachable), requests;
    }
    var promoted := server.project.body.promoted;
    if promoted.None? || |promoted.value| == 0 {
      return Failed(NoPromotedVersion), requests;
    }
    var text := promoted.value[0];
    var remote := Parse(text);
    if remote.None? {
      return Failed(InvalidRemoteVersion), requests;
    }
    if Compare(remote.value, local.value) > 0 {
      requests := [Authenticate, GetProject(plugin.id, session), GetRelease(plugin.id, text, session)];
      if server.release.Unavailable? {
        return ReleaseUnreachable(remote.value), requests;
      }
      var release := server.release.body;
      var diff := CheckDependencies(release.dependencies, installed, plugin.dependencies);
      outcome := UpdateAvailable(remote.value, release.description, diff);
    } else {
      outcome := UpToDate(remote.value);
    }
  }

  lemma RequestsUnique(plugin: Plugin, server: Server, installed: map<string, Option<string>>,
                       o1: Outcome, r1: seq<Request>, o2: Outcome, r2: seq<Request>)
    requires Performed(plugin, server, installed, o1, r1)
    requires Performed(plugin, server, installed, o2, r2)
    ensures r1 == r2
  {
    assert |r1| == |r2|;
  }

  lemma OutcomeUnique(plugin: Plugin, server: Server, installed: map<string, Option<string>>,
                      o1: Outcome, r1: seq<Request>, o2: Outcome, r2: seq<Request>)
    requires Performed(plugin, server, installed, o1, r1)
    requires Performed(plugin, server, installed, o2, r2)
    ensures o1 == o2
  {
    if o1.UpdateAvailable? && o1.dependencies.Report? {
      assert o2.UpdateAvailable? && o2.dependencies.Report?;
      assert o1.dependencies.items == o2.dependencies.items;
    }
  }

  /** The description above leaves nothing open: two runs against the same
      replies make the same calls and end the same way. */
  lemma PerformedUnique(plugin: Plugin, server: Server, installed: map<string, Option<string>>,
                        o1: Outcome, r1: seq<Request>, o2: Outcome, r2: seq<Request>)
    requires Performed(plugin, server, installed, o1, r1)
    requires Performed(plugin, server, installed, o2, r2)
    ensures r1 == r2 && o1 == o2
  {
    RequestsUnique(plugin, server, installed, o1, r1, o2, r2);
    OutcomeUnique(plugin, server, installed, o1, r1, o2, r2);
  }

  /** `allowedVersionChecking`: the plugins whose configuration enabled the
      check. */
  class VersionChecker {
    var allowed: set<string>

    constructor()
      ensures allowed == {}
    {
      allowed := {};
    }

    predicate IsVersionCheckingAllowed(id: string)
      reads this
    {
      id in allowed
    }

    /** Enables or disables the check for one plugin and leaves the others as
        they were. */
    method SetVersionCheckingEnabled(id: string, enabled: bool)
      modifies this
      ensures allowed == if enabled then old(allowed) + {id} else old(allowed) - {id}
      ensures IsVersionCheckingAllowed(id) == enabled
      ensures forall other :: other != id ==> (IsVersionCheckingAllowed(other) <==> old(IsVersionCheckingAllowed(other)))
    {
      if enabled {
        allowed := allowed + {id};
      } else {
        allowed := allowed - {id};
      }
    }

    /** `checkPluginVersion`: a plugin that is not allowed to check makes no
        call at all. */
    method CheckPluginVersion(plugin: Plugin, server: Server, installed: map<string, Option<string>>) returns (outcome: Outcome, requests: seq<Request>)
      ensures !IsVersionCheckingAllowed(plugin.id) ==> outcome == Disabled && requests == []
      ensures IsVersionCheckingAllowed(plugin.id) ==> Performed(plugin, server, installed, outcome, requests)
    {
      if plugin.id in allowed {
        outcome, requests := CheckVersion(plugin, server, installed);
      } else {
        outcome, requests := Disabled, [];
      }
    }
  }
}
