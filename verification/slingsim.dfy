/**
 * The default Sling simulator: a first-in first-out queue of the installables found while packages are
 * extracted, how each kind of installable is opened, and the helpers that turn a resource path into an OSGi
 * configuration PID.
 */
module SlingSimulation {
  import opened Wrappers
  import opened JavaResult
  import JavaString
  import Violations

  type PackageId = Violations.PackageId

  /** What an installable carries, by kind; an OSGi configuration cannot be opened by this simulator. */
  datatype InstallableKind =
    | RepoInitScripts(scripts: seq<string>)
    | EmbeddedPackage(embeddedId: PackageId)
    | OsgiConfig(servicePid: string, factoryPid: Option<string>)

  /** A Sling installable: the package it was found in, the repository path it was read from, and its kind. */
  datatype Installable = Installable(parentId: PackageId, jcrPath: string, kind: InstallableKind)

  /** The parameters read from a node, from which the installable is created once its path is known. */
  datatype InstallableParams =
    | RepoInitParams(scripts: seq<string>)
    | EmbeddedPackageParams(id: PackageId)
    | OsgiConfigParams(servicePid: string, factoryPid: Option<string>)
  {
    function CreateInstallable(parentId: PackageId, jcrPath: string): (r: Installable)
      ensures r.parentId == parentId && r.jcrPath == jcrPath
      ensures RepoInitParams? <==> r.kind.RepoInitScripts?
      ensures EmbeddedPackageParams? <==> r.kind.EmbeddedPackage?
    {
      match this
      case RepoInitParams(scripts) => Installable(parentId, jcrPath, RepoInitScripts(scripts))
      case EmbeddedPackageParams(id) => Installable(parentId, jcrPath, EmbeddedPackage(id))
      case OsgiConfigParams(servicePid, factoryPid) => Installable(parentId, jcrPath, OsgiConfig(servicePid, factoryPid))
    }
  }

  /**
   * What opening an installable yields: the scripts of a repoinit installable, or an embedded package, whose
   * upload into the package manager is not part of this model.
   */
  datatype Opened = OpenedScripts(scripts: seq<string>) | OpenedEmbeddedPackage(installable: Installable)

  /** `open`: repoinit scripts and embedded packages are supported; anything else is an illegal argument. */
  function Open(installable: Installable): (r: Result<Opened>)
    ensures r.Failure? <==> installable.kind.OsgiConfig?
    ensures r.Failure? ==> r.error.className == "IllegalArgumentException"
    ensures installable.kind.RepoInitScripts? ==> r == Success(OpenedScripts(installable.kind.scripts))
    ensures installable.kind.EmbeddedPackage? ==> r == Success(OpenedEmbeddedPackage(installable))
  {
    match installable.kind
    case RepoInitScripts(scripts) => Success(OpenedScripts(scripts))
    case EmbeddedPackage(_) => Success(OpenedEmbeddedPackage(installable))
    case OsgiConfig(_, _) => Failure(Exception("IllegalArgumentException", "Unsupported installable type: OsgiConfigInstallable"))
  }

  /** The simulator's queue of installables waiting to be opened. */
  class SlingSimulator {
    var installables: seq<Installable>

    constructor ()
      ensures installables == []
    {
      installables := [];
    }

    /** `startedScan`: the queue is emptied. */
    method StartedScan()
      modifies this
      ensures installables == []
    {
      installables := [];
    }

    /** `dequeueInstallable`: the oldest installable, or null when the queue is empty. */
    method DequeueInstallable() returns (r: Option<Installable>)
      modifies this
      ensures old(installables) == [] ==> r.None? && installables == []
      ensures old(installables) != [] ==> r == Some(old(installables)[0]) && installables == old(installables)[1..]
    {
      if installables == [] {
        r := None;
      } else {
        r := Some(installables[0]);
        installables := installables[1..];
      }
    }

    /**
     * `prepareInstallableNode`, given the node's path and the parameters read from it (reading the node is
     * repository I/O): an installable is created and queued only when both reads succeeded and the node is
     * an installable.
     */
    method PrepareInstallableNode(parentPackageId: PackageId, jcrPath: Result<string>,
                                  params: Result<Option<InstallableParams>>) returns (r: Option<Installable>)
      modifies this
      ensures r.Some? <==> jcrPath.Success? && params.Success? && params.value.Some?
      ensures r.Some? ==> r.value == params.value.value.CreateInstallable(parentPackageId, jcrPath.value)
      ensures installables == old(installables) + (if r.Some? then [r.value] else [])
    {
      r := None;
      if jcrPath.Success? && params.Success? && params.value.Some? {
        r := Some(params.value.value.CreateInstallable(parentPackageId, jcrPath.value));
      }
      if r.Some? {
        installables := installables + [r.value];
      }
    }
  }

  /** Draining the queue gives back everything queued since the scan started, in the order it was queued. */
  method DrainQueue(sim: SlingSimulator) returns (drained: seq<Installable>)
    modifies sim
    ensures drained == old(sim.installables) && sim.installables == []
  {
    drained := [];
    var next := sim.DequeueInstallable();
    while next.Some?
      invariant drained + (if next.Some? then [next.value] else []) + sim.installables == old(sim.installables)
      invariant next.None? ==> sim.installables == []
      decreases |sim.installables|, next.Some?
    {
      drained := drained + [next.value];
      next := sim.DequeueInstallable();
    }
  }

  /** `separatorsToUnix`: every backslash becomes a slash; null stays null. */
  function SeparatorsToUnix(path: Option<string>): (r: Option<string>)
    ensures r.Some? <==> path.Some?
    ensures r.Some? ==> |r.value| == |path.value| && '\\' !in r.value
    ensures r.Some? ==> forall i :: 0 <= i < |path.value| && path.value[i] != '\\' ==> r.value[i] == path.value[i]
    ensures r.Some? ==> forall i :: 0 <= i < |path.value| && path.value[i] == '\\' ==> r.value[i] == '/'
  {
    if path.None? || JavaString.IndexOf(path.value, '\\') == -1 then path
    else Some(JavaString.ReplaceChar(path.value, '\\', '/'))
  }

  /** Converting twice changes nothing more. */
  lemma SeparatorsToUnixIdempotent(path: Option<string>)
    ensures SeparatorsToUnix(SeparatorsToUnix(path)) == SeparatorsToUnix(path)
  {
  }

  /**
   * `getResourceId`: the part of the Unix-style url after its last '/', or when it has none after its first
   * ':', or else the whole url.
   */
  function GetResourceId(rawUrl: string): (r: string)
    ensures var url := SeparatorsToUnix(Some(rawUrl)).value;
      (exists k :: 0 <= k <= |url| && url[k..] == r) &&
      ('/' in url ==> '/' !in r && |r| < |url| && url[|url| - |r| - 1] == '/') &&
      ('/' !in url && ':' in url ==> |r| < |url| && url[|url| - |r| - 1] == ':' && ':' !in url[..|url| - |r| - 1]) &&
      ('/' !in url && ':' !in url ==> r == url)
  {
    var url := SeparatorsToUnix(Some(rawUrl)).value;
    var slash := JavaString.LastIndexOf(url, '/');
    var pos := if slash == -1 then JavaString.IndexOf(url, ':') else slash;
    var r := if pos != -1 then url[pos + 1..] else url;
    r
  }

  /** The configuration file extensions, in the order they are tried. */
  const Extensions: seq<string> := [".config", ".properties"]

  /** The first configuration extension `id` ends with, if any. */
  function ConfigExtensionOf(id: string): (r: Option<string>)
    ensures r.Some? ==> r.value in Extensions && JavaString.EndsWith(id, r.value)
    ensures r.None? <==> forall k :: 0 <= k < |Extensions| ==> !JavaString.EndsWith(id, Extensions[k])
  {
    if JavaString.EndsWith(id, ".config") then Some(".config")
    else if JavaString.EndsWith(id, ".properties") then Some(".properties")
    else None
  }

  /** `removeConfigExtension`: the first extension `id` ends with is cut off. */
  method RemoveConfigExtension(id: string) returns (r: string)
    ensures ConfigExtensionOf(id).None? ==> r == id
    ensures ConfigExtensionOf(id).Some? ==> r + ConfigExtensionOf(id).value == id
  {
    for k := 0 to |Extensions|
      invariant forall j :: 0 <= j < k ==> !JavaString.EndsWith(id, Extensions[j])
    {
      var ext := Extensions[k];
      if JavaString.EndsWith(id, ext) {
        assert id[..|id| - |ext|] + ext == id;
        return id[..|id| - |ext|];
      }
    }
    return id;
  }

  /** `isConfigExtension`: the url ends with one of the configuration extensions. */
  method IsConfigExtension(url: string) returns (r: bool)
    ensures r <==> ConfigExtensionOf(url).Some?
  {
    for k := 0 to |Extensions|
      invariant forall j :: 0 <= j < k ==> !JavaString.EndsWith(url, Extensions[j])
    {
      if JavaString.EndsWith(url, Extensions[k]) {
        return true;
      }
    }
    return false;
  }

  /** An extension is removed exactly when the id has one, so removal leaves the id alone otherwise. */
  lemma ExtensionRemovedIff(id: string, stripped: string)
    requires ConfigExtensionOf(id).None? ==> stripped == id
    requires ConfigExtensionOf(id).Some? ==> stripped + ConfigExtensionOf(id).value == id
    ensures stripped != id <==> ConfigExtensionOf(id).Some?
  {
    if ConfigExtensionOf(id).Some? {
      assert |stripped| < |id|;
    }
  }

  /**
   * The split of a PID into factory PID and configuration PID: at the first '~', or when there is none at the
   * first '-', and only when that separator is not the first character.
   */
  function SplitPid(pid: string): (r: (string, Option<string>))
    ensures r.1.Some? ==>
      r.1.value != [] &&
      exists sep :: sep in "~-" && pid == r.1.value + [sep] + r.0
    ensures r.1.Some? && '~' in pid ==> pid[|r.1.value|] == '~' && '~' !in r.1.value
    ensures r.1.Some? && '~' !in pid ==> pid[|r.1.value|] == '-' && '-' !in r.1.value
    ensures r.1.None? ==> r.0 == pid
  {
    var tilde := JavaString.IndexOf(pid, '~');
    var n := if tilde == -1 then JavaString.IndexOf(pid, '-') else tilde;
    if n > 0 then
      assert pid == pid[..n] + [pid[n]] + pid[n + 1..];
      (pid[n + 1..], Some(pid[..n]))
    else (pid, None)
  }

  /** No split happens exactly when the id has neither separator, or its first separator starts it. */
  lemma SplitPidNone(pid: string)
    ensures SplitPid(pid).1.None? <==>
      ('~' in pid && pid[0] == '~') || ('~' !in pid && ('-' !in pid || pid[0] == '-'))
  {
  }

  /**
   * `maybeConfigResource`: the configuration parameters for a resource at `path`, its PID being the resource
   * id without its configuration extension.
   */
  method MaybeConfigResource(path: string) returns (r: InstallableParams)
    ensures r.OsgiConfigParams?
    ensures var id := GetResourceId(path);
      var pid := if ConfigExtensionOf(id).Some? then id[..|id| - |ConfigExtensionOf(id).value|] else id;
      (r.servicePid, r.factoryPid) == SplitPid(pid)
  {
    var lastIdPart := GetResourceId(path);
    var pid := RemoveConfigExtension(lastIdPart);
    var split := SplitPid(pid);
    r := OsgiConfigParams(split.0, split.1);
  }
}
