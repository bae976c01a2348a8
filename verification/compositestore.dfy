/**
 * The CompositeStoreAlignment check: every path a package imports or deletes is attributed to the composite
 * node store mount that holds it, and at the end of the scan a package whose own content spans more than one
 * mount is reported, as is a package with content in one mount whose subpackages reach into other mounts.
 */
module CompositeStoreAlignment {
  import opened Wrappers
  import opened JavaResult
  import opened Violations
  import JavaString
  import JavaxJson
  import Rules
  import Seqs

  /** The name of the mount that holds every path no configured mount claims. */
  const DefaultMountName := "<default>"
  /** `JcrPackageRegistry.DEFAULT_PACKAGE_ROOT_PATH` and its prefix form. */
  const PackageRootPath := "/etc/packages"
  const PackageRootPathPrefix := "/etc/packages/"

  // ---------------------------------------------------------------------------------------------------------
  // newInstance

  /** What `newInstance` reads: the severity of the violations and the paths of each configured mount. */
  datatype Config = Config(severity: Severity, mounts: map<string, seq<string>>)

  /** The severity text: the `severity` string when there is one, otherwise MAJOR. */
  function SeverityText(config: map<string, JavaxJson.Json>): string {
    if "severity" in config && config["severity"].JString? then config["severity"].s else "MAJOR"
  }

  /** The paths of one entry of `mounts`: the strings of an array, or a single string; none for anything else. */
  function MountPaths(value: JavaxJson.Json): Option<seq<string>> {
    match value
    case JArray(items) => Some(JavaxJson.StringsOf(items))
    case JString(s) => Some([s])
    case _ => None
  }

  /**
   * The mounts an object of `mounts` defines: one per key whose value is an array or a string, except the
   * default mount's name, which cannot be redefined.
   */
  function MountsOf(fields: map<string, JavaxJson.Json>): (r: map<string, seq<string>>)
    ensures DefaultMountName !in r
    ensures forall name :: name in r <==> name in fields && name != DefaultMountName && MountPaths(fields[name]).Some?
    ensures forall name :: name in r ==> r[name] == MountPaths(fields[name]).value
  {
    map name | name in fields && name != DefaultMountName && MountPaths(fields[name]).Some?
      :: MountPaths(fields[name]).value
  }

  /**
   * `newInstance`: the severity is named in any case, MAJOR by default, and an unknown name is an
   * `IllegalArgumentException`; a `mounts` object defines the mounts (anything else under that key is a
   * `ClassCastException`), and without one the `apps` mount holds /apps and /libs.
   */
  function NewInstance(config: map<string, JavaxJson.Json>): (r: Result<Config>)
    ensures r.Success? ==> Some(r.value.severity) == SeverityValueOf(JavaString.ToUpper(SeverityText(config)))
    ensures SeverityValueOf(JavaString.ToUpper(SeverityText(config))).None? ==>
      r.Failure? && r.error.className == "IllegalArgumentException"
    ensures SeverityValueOf(JavaString.ToUpper(SeverityText(config))).Some? ==>
      (r.Success? <==> "mounts" !in config || config["mounts"].JObject?)
    ensures r.Success? && "mounts" in config ==> r.value.mounts == MountsOf(config["mounts"].fields)
    ensures r.Success? && "mounts" !in config ==> r.value.mounts == map["apps" := ["/apps", "/libs"]]
    ensures r.Success? ==> DefaultMountName !in r.value.mounts
  {
    var name := JavaString.ToUpper(SeverityText(config));
    var severity := SeverityValueOf(name);
    if severity.None? then Failure(Exception("IllegalArgumentException", "No enum constant " + name))
    else if "mounts" !in config then Success(Config(severity.value, map["apps" := ["/apps", "/libs"]]))
    else if !config["mounts"].JObject? then Failure(Exception("ClassCastException", "mounts is not an object"))
    else Success(Config(severity.value, MountsOf(config["mounts"].fields)))
  }

  /** Without a `severity`, violations are MAJOR; without `mounts`, the one mount is `apps`. */
  lemma DefaultConfig()
    ensures NewInstance(map[]) == Success(Config(Major, map["apps" := ["/apps", "/libs"]]))
  {
    assert JavaString.ToUpper("MAJOR") == "MAJOR";
  }

  // ---------------------------------------------------------------------------------------------------------
  // importedPath, deletedPath

  /**
   * The paths `handlePath` ignores: all of them when no mount besides the default one is defined, and
   * otherwise the root, /etc, the package root and everything below it, which packages with subpackages
   * touch whatever mount their content goes to.
   */
  predicate Ignored(hasNonDefaultMounts: bool, path: string) {
    !hasNonDefaultMounts || path == "/" || path == "/etc" || path == PackageRootPath ||
    JavaString.StartsWith(path, PackageRootPathPrefix)
  }

  /** The mounts held for the current package after `handlePath(path)`. */
  function Handled(hasNonDefaultMounts: bool, mountByPath: string -> string, current: seq<string>, path: string)
    : seq<string>
    requires Seqs.Distinct(current)
  {
    if Ignored(hasNonDefaultMounts, path) then current else Seqs.Added(current, mountByPath(path))
  }

  /** The mounts held for the current package after handling `paths` in order. */
  function HandledAll(hasNonDefaultMounts: bool, mountByPath: string -> string, current: seq<string>,
                      paths: seq<string>): (r: seq<string>)
    requires Seqs.Distinct(current)
    ensures Seqs.Distinct(r)
  {
    if |paths| == 0 then current
    else Handled(hasNonDefaultMounts, mountByPath,
                 HandledAll(hasNonDefaultMounts, mountByPath, current, paths[..|paths| - 1]), paths[|paths| - 1])
  }

  /**
   * After a run of imported or deleted paths, a mount is held for the package exactly when it was held before
   * or holds one of the paths that are not ignored.
   */
  lemma {:induction false} HandledAllMounts(hasNonDefaultMounts: bool, mountByPath: string -> string,
                                             current: seq<string>, paths: seq<string>, m: string)
    requires Seqs.Distinct(current)
    ensures m in HandledAll(hasNonDefaultMounts, mountByPath, current, paths) <==>
      m in current || exists p :: p in paths && !Ignored(hasNonDefaultMounts, p) && mountByPath(p) == m
  {
    if |paths| > 0 {
      var init := paths[..|paths| - 1];
      var last := paths[|paths| - 1];
      assert paths == init + [last];
      HandledAllMounts(hasNonDefaultMounts, mountByPath, current, init, m);
    }
  }

  /** Without a non-default mount, or touching only the root, /etc and the package root, no mount is held. */
  lemma {:induction false} IgnoredPathsHoldNothing(hasNonDefaultMounts: bool, mountByPath: string -> string,
                                                    current: seq<string>, paths: seq<string>)
    requires Seqs.Distinct(current)
    requires forall p :: p in paths ==> Ignored(hasNonDefaultMounts, p)
    ensures HandledAll(hasNonDefaultMounts, mountByPath, current, paths) == current
  {
    if |paths| > 0 {
      assert paths[..|paths| - 1] + [paths[|paths| - 1]] == paths;
      IgnoredPathsHoldNothing(hasNonDefaultMounts, mountByPath, current, paths[..|paths| - 1]);
    }
  }

  // ---------------------------------------------------------------------------------------------------------
  // identifyPackage, identifySubpackage

  /** The subpackages listed for `id`, none when it was never identified. */
  function Children(subs: map<PackageId, seq<PackageId>>, id: PackageId): seq<PackageId> {
    if id in subs then subs[id] else []
  }

  /**
   * `identifySubpackage` as written: the subpackage gets a reset empty list, then is appended to its parent's
   * list; a subpackage that is its own parent is thereby listed under itself.
   */
  function AddSubpackageAsWritten(subs: map<PackageId, seq<PackageId>>, id: PackageId, parent: PackageId)
    : (r: map<PackageId, seq<PackageId>>)
    ensures id in r
    ensures parent == id ==> r[id] == [id]
  {
    var reset := subs[id := []];
    if parent in reset then reset[parent := reset[parent] + [id]] else reset
  }

  /**
   * `identifySubpackage`, with a package never listed as its own subpackage: the subpackage gets a reset empty
   * list and is appended to its parent's list when the parent is listed; every other package keeps its list,
   * and only the subpackage becomes listed.
   */
  function AddSubpackage(subs: map<PackageId, seq<PackageId>>, id: PackageId, parent: PackageId)
    : (r: map<PackageId, seq<PackageId>>)
    ensures id in r && r[id] == []
    ensures parent != id && parent in subs ==> parent in r && r[parent] == subs[parent] + [id]
    ensures forall p :: p != id && p != parent ==> Children(r, p) == Children(subs, p)
    ensures forall p :: p in r <==> p in subs || p == id
  {
    var reset := subs[id := []];
    if parent == id || parent !in reset then reset else reset[parent := reset[parent] + [id]]
  }

  /**
   * `identifySubpackage` on a parent that was never identified appends to an immutable empty list, which
   * throws.
   */
  function AddSubpackageThrows(subs: map<PackageId, seq<PackageId>>, id: PackageId, parent: PackageId)
    : (r: Option<Exception>)
    ensures r.Some? <==> parent != id && parent !in subs
  {
    if parent != id && parent !in subs then Some(Exception("UnsupportedOperationException", "")) else None
  }

  /**
   * The subpackage lists follow the order in which packages were identified: `stamp` records when each
   * listed package was last identified, no later than `clock`, and every subpackage was identified after its
   * parent. No package is therefore reachable from itself.
   */
  ghost predicate Ranked(subs: map<PackageId, seq<PackageId>>, stamp: map<PackageId, nat>, clock: nat) {
    (forall p :: p in subs ==> p in stamp && stamp[p] <= clock) &&
    (forall p, c :: p in subs && c in subs[p] ==> c in subs && stamp[p] < stamp[c])
  }

  /** How many identifications ago `id` was last identified, plus one; zero for a package never identified. */
  ghost function Rank(subs: map<PackageId, seq<PackageId>>, stamp: map<PackageId, nat>, clock: nat, id: PackageId)
    : nat
    requires Ranked(subs, stamp, clock)
  {
    if id in subs then clock - stamp[id] + 1 else 0
  }

  /** `identifyPackage` keeps the lists ranked, the new package being the latest identified. */
  lemma IdentifyKeepsRanked(subs: map<PackageId, seq<PackageId>>, stamp: map<PackageId, nat>, clock: nat,
                            id: PackageId)
    requires Ranked(subs, stamp, clock)
    ensures Ranked(subs[id := []], stamp[id := clock + 1], clock + 1)
  {
  }

  /** Adding a subpackage keeps the lists ranked, the subpackage being the latest identified. */
  lemma AddSubpackageKeepsRanked(subs: map<PackageId, seq<PackageId>>, stamp: map<PackageId, nat>, clock: nat,
                                 id: PackageId, parent: PackageId)
    requires Ranked(subs, stamp, clock)
    ensures Ranked(AddSubpackage(subs, id, parent), stamp[id := clock + 1], clock + 1)
  {
    var r := AddSubpackage(subs, id, parent);
    var stamp' := stamp[id := clock + 1];
    forall p, c | p in r && c in r[p]
      ensures c in r && stamp'[p] < stamp'[c]
    {
      if p == parent && p != id && parent in subs && c == id {
      } else {
        assert c in subs[p];
      }
    }
  }

  // ---------------------------------------------------------------------------------------------------------
  // getMountsAffectedByPackage, getMountsAffectedByPackageGraph

  /** A subpackage was identified more recently than its parent. */
  lemma RankDecreases(subs: map<PackageId, seq<PackageId>>, stamp: map<PackageId, nat>, clock: nat,
                      root: PackageId, k: PackageId)
    requires Ranked(subs, stamp, clock)
    requires k in Children(subs, root)
    ensures Rank(subs, stamp, clock, k) < Rank(subs, stamp, clock, root)
  {
    assert root in subs && k in subs[root];
  }

  /** Every package's recorded mounts are listed once each. */
  predicate AffectedDistinct(affected: map<PackageId, seq<string>>) {
    forall p :: p in affected ==> Seqs.Distinct(affected[p])
  }

  /** `getMountsAffectedByPackage`: the mounts recorded for the package, none when it was never extracted. */
  function Own(affected: map<PackageId, seq<string>>, id: PackageId): (r: seq<string>)
    requires AffectedDistinct(affected)
    ensures Seqs.Distinct(r)
  {
    if id in affected then affected[id] else []
  }

  /** `getMountsAffectedByPackageGraph`: the package's own mounts, then those of each subpackage's graph. */
  function GraphMounts(subs: map<PackageId, seq<PackageId>>, ghost stamp: map<PackageId, nat>, ghost clock: nat,
                       affected: map<PackageId, seq<string>>, root: PackageId): (r: seq<string>)
    requires Ranked(subs, stamp, clock) && AffectedDistinct(affected)
    ensures Seqs.Distinct(r)
    ensures |Own(affected, root)| <= |r| && r[..|Own(affected, root)|] == Own(affected, root)
    decreases Rank(subs, stamp, clock, root), 1
  {
    KidsMounts(subs, stamp, clock, affected, root, Children(subs, root))
  }

  /** The loop of `getMountsAffectedByPackageGraph` over the subpackages `kids` of `root`. */
  function KidsMounts(subs: map<PackageId, seq<PackageId>>, ghost stamp: map<PackageId, nat>, ghost clock: nat,
                      affected: map<PackageId, seq<string>>, root: PackageId, kids: seq<PackageId>)
    : (r: seq<string>)
    requires Ranked(subs, stamp, clock) && AffectedDistinct(affected)
    requires forall k :: k in kids ==> k in Children(subs, root)
    ensures Seqs.Distinct(r)
    ensures |Own(affected, root)| <= |r| && r[..|Own(affected, root)|] == Own(affected, root)
    decreases Rank(subs, stamp, clock, root), 0, |kids|
  {
    if |kids| == 0 then Own(affected, root)
    else
      var prior := KidsMounts(subs, stamp, clock, affected, root, kids[..|kids| - 1]);
      RankDecreases(subs, stamp, clock, root, kids[|kids| - 1]);
      var r := Seqs.AddAll(prior, GraphMounts(subs, stamp, clock, affected, kids[|kids| - 1]));
      assert r[..|Own(affected, root)|] == r[..|prior|][..|Own(affected, root)|];
      r
  }

  /** The loop collects the own mounts and the mounts of the listed subpackages' graphs, and nothing else. */
  lemma {:induction false} KidsMountsMembers(subs: map<PackageId, seq<PackageId>>, stamp: map<PackageId, nat>,
                                             clock: nat, affected: map<PackageId, seq<string>>, root: PackageId,
                                             kids: seq<PackageId>, m: string)
    requires Ranked(subs, stamp, clock) && AffectedDistinct(affected)
    requires forall k :: k in kids ==> k in Children(subs, root)
    ensures m in KidsMounts(subs, stamp, clock, affected, root, kids) <==>
      m in Own(affected, root) || exists k :: k in kids && m in GraphMounts(subs, stamp, clock, affected, k)
  {
    if |kids| > 0 {
      var init := kids[..|kids| - 1];
      var last := kids[|kids| - 1];
      assert kids == init + [last];
      KidsMountsMembers(subs, stamp, clock, affected, root, init, m);
      if m in GraphMounts(subs, stamp, clock, affected, last) {
        assert last in kids;
      }
      if exists k :: k in kids && m in GraphMounts(subs, stamp, clock, affected, k) {
        var k :| k in kids && m in GraphMounts(subs, stamp, clock, affected, k);
        if k != last {
          assert k in init;
        }
      }
    }
  }

  /**
   * A mount is affected by a package graph exactly when the package itself or the graph of one of its
   * subpackages affects it.
   */
  lemma GraphMountsMembers(subs: map<PackageId, seq<PackageId>>, stamp: map<PackageId, nat>, clock: nat,
                           affected: map<PackageId, seq<string>>, root: PackageId, m: string)
    requires Ranked(subs, stamp, clock) && AffectedDistinct(affected)
    ensures m in GraphMounts(subs, stamp, clock, affected, root) <==>
      m in Own(affected, root) ||
      exists k :: k in Children(subs, root) && m in GraphMounts(subs, stamp, clock, affected, k)
  {
    KidsMountsMembers(subs, stamp, clock, affected, root, Children(subs, root), m);
  }

  /**
   * A package with content in a single mount whose graph spans more mounts has a subpackage whose graph
   * affects another mount.
   */
  lemma RecursiveMisalignmentFromSubpackage(subs: map<PackageId, seq<PackageId>>, stamp: map<PackageId, nat>,
                                            clock: nat, affected: map<PackageId, seq<string>>, root: PackageId)
    requires Ranked(subs, stamp, clock) && AffectedDistinct(affected)
    requires |Own(affected, root)| == 1 && |GraphMounts(subs, stamp, clock, affected, root)| > 1
    ensures exists k, m ::
      k in Children(subs, root) && m in GraphMounts(subs, stamp, clock, affected, k) && m != Own(affected, root)[0]
  {
    var graph := GraphMounts(subs, stamp, clock, affected, root);
    var m := graph[1];
    assert m != graph[0] && graph[0] == Own(affected, root)[0];
    GraphMountsMembers(subs, stamp, clock, affected, root, m);
  }

  /** A package without subpackages affects only its own mounts. */
  lemma LeafGraphIsOwn(subs: map<PackageId, seq<PackageId>>, stamp: map<PackageId, nat>, clock: nat,
                       affected: map<PackageId, seq<string>>, root: PackageId)
    requires Ranked(subs, stamp, clock) && AffectedDistinct(affected)
    requires Children(subs, root) == []
    ensures GraphMounts(subs, stamp, clock, affected, root) == Own(affected, root)
  {
  }

  /**
   * `getMountsAffectedByPackageGraph` as written, on lists that may hold a package under itself; the
   * recursion is bounded by `depth` nested calls, and running out of them, as the Java stack does, is `None`.
   */
  function GraphMountsAsWritten(subs: map<PackageId, seq<PackageId>>, affected: map<PackageId, seq<string>>,
                                root: PackageId, depth: nat): (r: Option<seq<string>>)
    requires AffectedDistinct(affected)
    ensures r.Some? ==> Seqs.Distinct(r.value)
    decreases depth, 1
  {
    if depth == 0 then None else KidsMountsAsWritten(subs, affected, root, Children(subs, root), depth - 1)
  }

  /** The loop of `getMountsAffectedByPackageGraph` as written; the first call that overflows ends it. */
  function KidsMountsAsWritten(subs: map<PackageId, seq<PackageId>>, affected: map<PackageId, seq<string>>,
                               root: PackageId, kids: seq<PackageId>, depth: nat): (r: Option<seq<string>>)
    requires AffectedDistinct(affected)
    ensures r.Some? ==> Seqs.Distinct(r.value)
    decreases depth, 2, |kids|
  {
    if |kids| == 0 then Some(Own(affected, root))
    else
      var prior := KidsMountsAsWritten(subs, affected, root, kids[..|kids| - 1], depth);
      if prior.None? then None
      else
        var last := GraphMountsAsWritten(subs, affected, kids[|kids| - 1], depth);
        if last.None? then None else Some(Seqs.AddAll(prior.value, last.value))
  }

  /** One subpackage whose graph overflows makes the whole loop overflow. */
  lemma {:induction false} KidsOverflow(subs: map<PackageId, seq<PackageId>>, affected: map<PackageId, seq<string>>,
                                        root: PackageId, kids: seq<PackageId>, depth: nat, k: PackageId)
    requires AffectedDistinct(affected)
    requires k in kids && GraphMountsAsWritten(subs, affected, k, depth).None?
    ensures KidsMountsAsWritten(subs, affected, root, kids, depth).None?
  {
    var init := kids[..|kids| - 1];
    assert kids == init + [kids[|kids| - 1]];
    if k != kids[|kids| - 1] {
      KidsOverflow(subs, affected, root, init, depth, k);
    }
  }

  /** A package listed under itself overflows the recursion however deep the stack is. */
  lemma {:induction false} SelfListedOverflows(subs: map<PackageId, seq<PackageId>>,
                                               affected: map<PackageId, seq<string>>, x: PackageId, depth: nat)
    requires AffectedDistinct(affected)
    requires x in Children(subs, x)
    ensures GraphMountsAsWritten(subs, affected, x, depth).None?
  {
    if depth > 0 {
      SelfListedOverflows(subs, affected, x, depth - 1);
      KidsOverflow(subs, affected, x, Children(subs, x), depth - 1, x);
    }
  }

  /**
   * A package identified as its own subpackage, as `identifySubpackage` is written, makes
   * `getMountsAffectedByPackageGraph` recurse without end on it.
   */
  lemma SelfParentOverflows(subs: map<PackageId, seq<PackageId>>, affected: map<PackageId, seq<string>>,
                            x: PackageId, depth: nat)
    requires AffectedDistinct(affected)
    ensures GraphMountsAsWritten(AddSubpackageAsWritten(subs, x, x), affected, x, depth).None?
  {
    SelfListedOverflows(AddSubpackageAsWritten(subs, x, x), affected, x, depth);
  }

  /**
   * On ranked lists the recursion as written, given as many nested calls as the package's rank, computes the
   * mounts of the graph.
   */
  lemma {:induction false} AsWrittenAgrees(subs: map<PackageId, seq<PackageId>>, stamp: map<PackageId, nat>,
                                           clock: nat, affected: map<PackageId, seq<string>>, root: PackageId,
                                           depth: nat)
    requires Ranked(subs, stamp, clock) && AffectedDistinct(affected)
    requires depth >= Rank(subs, stamp, clock, root) + 1
    ensures GraphMountsAsWritten(subs, affected, root, depth) == Some(GraphMounts(subs, stamp, clock, affected, root))
    decreases Rank(subs, stamp, clock, root), 1
  {
    KidsAsWrittenAgrees(subs, stamp, clock, affected, root, Children(subs, root), depth - 1);
  }

  lemma {:induction false} KidsAsWrittenAgrees(subs: map<PackageId, seq<PackageId>>, stamp: map<PackageId, nat>,
                                               clock: nat, affected: map<PackageId, seq<string>>, root: PackageId,
                                               kids: seq<PackageId>, depth: nat)
    requires Ranked(subs, stamp, clock) && AffectedDistinct(affected)
    requires forall k :: k in kids ==> k in Children(subs, root)
    requires depth >= Rank(subs, stamp, clock, root)
    ensures KidsMountsAsWritten(subs, affected, root, kids, depth) ==
      Some(KidsMounts(subs, stamp, clock, affected, root, kids))
    decreases Rank(subs, stamp, clock, root), 0, |kids|
  {
    if |kids| > 0 {
      var last := kids[|kids| - 1];
      KidsAsWrittenAgrees(subs, stamp, clock, affected, root, kids[..|kids| - 1], depth);
      RankDecreases(subs, stamp, clock, root, last);
      AsWrittenAgrees(subs, stamp, clock, affected, last, depth);
    }
  }

  // ---------------------------------------------------------------------------------------------------------
  // finishedScan

  /** The mount names joined with " and ", as the violation's argument lists them. */
  function JoinAnd(names: seq<string>): string {
    if |names| == 0 then ""
    else if |names| == 1 then names[0]
    else names[0] + " and " + JoinAnd(names[1..])
  }

  /** The message heads of the two violations, before the parenthesised mounts. */
  const NotAlignedHead := "package content not aligned to a single composite store mount ("
  const RecursiveHead := "recursive package installation not aligned to a single composite store mount ("

  function NotAlignedText(names: seq<string>): string {
    NotAlignedHead + JoinAnd(names) + ")"
  }

  function RecursiveText(names: seq<string>): string {
    RecursiveHead + JoinAnd(names) + ")"
  }

  /**
   * What `finishedScan` reports for one package: nothing when the scope rules exclude it; its own mounts when
   * they are more than one; and, when it has content in exactly one mount, the mounts of its graph when those
   * are more than one. A package with no content of its own is never reported.
   */
  function PackageVerdict(severity: Severity, id: PackageId, excluded: bool, own: seq<string>, graph: seq<string>)
    : (r: seq<Violation>)
    ensures |r| <= 1
    ensures excluded || |own| == 0 ==> r == []
    ensures !excluded && |own| > 1 ==> r == [Violation(severity, NotAlignedText(own), [id])]
    ensures !excluded && |own| == 1 ==> (r != [] <==> |graph| > 1)
    ensures !excluded && |own| == 1 && |graph| > 1 ==> r == [Violation(severity, RecursiveText(graph), [id])]
  {
    if excluded then []
    else if |own| > 1 then [Violation(severity, NotAlignedText(own), [id])]
    else if |own| > 0 && |graph| > 1 then [Violation(severity, RecursiveText(graph), [id])]
    else []
  }

  /** What `finishedScan` reports for one package that affected mounts. */
  function Verdict(severity: Severity, scope: seq<Rules.Rule>, regex: Rules.RegexMatcher,
                   subs: map<PackageId, seq<PackageId>>, ghost stamp: map<PackageId, nat>, ghost clock: nat,
                   affected: map<PackageId, seq<string>>, id: PackageId): (r: seq<Violation>)
    requires Ranked(subs, stamp, clock) && AffectedDistinct(affected)
  {
    PackageVerdict(severity, id, Rules.LastMatchFuzzy(scope, regex, id).IsExclude(),
                   Own(affected, id), GraphMounts(subs, stamp, clock, affected, id))
  }

  /** What `finishedScan` reports for `ids`, in order. */
  function Verdicts(severity: Severity, scope: seq<Rules.Rule>, regex: Rules.RegexMatcher,
                    subs: map<PackageId, seq<PackageId>>, ghost stamp: map<PackageId, nat>, ghost clock: nat,
                    affected: map<PackageId, seq<string>>, ids: seq<PackageId>): (r: seq<Violation>)
    requires Ranked(subs, stamp, clock) && AffectedDistinct(affected)
  {
    if |ids| == 0 then []
    else Verdicts(severity, scope, regex, subs, stamp, clock, affected, ids[..|ids| - 1]) +
         Verdict(severity, scope, regex, subs, stamp, clock, affected, ids[|ids| - 1])
  }

  /** The verdicts for one more package of the list are those for the list so far, then its own. */
  lemma VerdictsStep(severity: Severity, scope: seq<Rules.Rule>, regex: Rules.RegexMatcher,
                     subs: map<PackageId, seq<PackageId>>, stamp: map<PackageId, nat>, clock: nat,
                     affected: map<PackageId, seq<string>>, ids: seq<PackageId>, k: nat)
    requires Ranked(subs, stamp, clock) && AffectedDistinct(affected)
    requires k < |ids|
    ensures Verdicts(severity, scope, regex, subs, stamp, clock, affected, ids[..k + 1]) ==
      Verdicts(severity, scope, regex, subs, stamp, clock, affected, ids[..k]) +
      Verdict(severity, scope, regex, subs, stamp, clock, affected, ids[k])
  {
    assert ids[..k + 1][..k] == ids[..k];
  }

  /** The check's state; `reported` is the list of violations a simple progress check collects. */
  class Check {
    const severity: Severity
    const scopePackageIds: seq<Rules.Rule>
    /** Evaluates the scope rules' regular expressions. */
    const regex: Rules.RegexMatcher
    /** Whether the mount information defines a mount besides the default one. */
    const hasNonDefaultMounts: bool
    /** The name of the mount holding a path, as the mount information answers it. */
    const mountByPath: string -> string
    var subPackages: map<PackageId, seq<PackageId>>
    var affectedMounts: map<PackageId, seq<string>>
    /** The packages of `affectedMounts`, in the order `finishedScan` visits them. */
    var affectedOrder: seq<PackageId>
    var currentPackageMounts: seq<string>
    var reported: seq<Violation>
    ghost var stamp: map<PackageId, nat>
    ghost var clock: nat

    ghost predicate Valid()
      reads `subPackages, `affectedMounts, `affectedOrder, `currentPackageMounts, `stamp, `clock
    {
      Ranked(subPackages, stamp, clock) && AffectedDistinct(affectedMounts) && Seqs.Distinct(currentPackageMounts) &&
      Seqs.Distinct(affectedOrder) && (forall p :: p in affectedMounts <==> p in affectedOrder)
    }

    constructor (severity: Severity, scopePackageIds: seq<Rules.Rule>, regex: Rules.RegexMatcher,
                 hasNonDefaultMounts: bool, mountByPath: string -> string)
      ensures this.severity == severity && this.scopePackageIds == scopePackageIds && this.regex == regex
      ensures this.hasNonDefaultMounts == hasNonDefaultMounts && this.mountByPath == mountByPath
      ensures subPackages == map[] && affectedMounts == map[] && affectedOrder == []
      ensures currentPackageMounts == [] && reported == []
      ensures Valid()
    {
      this.severity := severity;
      this.scopePackageIds := scopePackageIds;
      this.regex := regex;
      this.hasNonDefaultMounts := hasNonDefaultMounts;
      this.mountByPath := mountByPath;
      subPackages := map[];
      affectedMounts := map[];
      affectedOrder := [];
      currentPackageMounts := [];
      reported := [];
      stamp := map[];
      clock := 0;
    }

    /** `identifyPackage`: the package starts with no subpackages. */
    method IdentifyPackage(id: PackageId)
      requires Valid()
      modifies `subPackages, `stamp, `clock
      ensures Valid()
      ensures subPackages == old(subPackages)[id := []]
    {
      IdentifyKeepsRanked(subPackages, stamp, clock, id);
      subPackages, stamp, clock := subPackages[id := []], stamp[id := clock + 1], clock + 1;
    }

    /**
     * `identifySubpackage`: the subpackage starts with no subpackages and is listed under its parent; a
     * parent never identified makes it throw, after the subpackage's list is created.
     */
    method IdentifySubpackage(id: PackageId, parent: PackageId) returns (thrown: Option<Exception>)
      requires Valid()
      modifies `subPackages, `stamp, `clock
      ensures Valid()
      ensures subPackages == AddSubpackage(old(subPackages), id, parent)
      ensures thrown == AddSubpackageThrows(old(subPackages), id, parent)
    {
      ghost var subs, stamp0, clock0 := subPackages, stamp, clock;
      thrown := AddSubpackageThrows(subPackages, id, parent);
      subPackages, stamp, clock := AddSubpackage(subPackages, id, parent), stamp[id := clock + 1], clock + 1;
      ValidAfterAdd(subs, stamp0, clock0, id, parent);
    }

    /** The state after `identifySubpackage` is valid when the one before it was. */
    lemma ValidAfterAdd(subs: map<PackageId, seq<PackageId>>, stamp0: map<PackageId, nat>, clock0: nat,
                        id: PackageId, parent: PackageId)
      requires Ranked(subs, stamp0, clock0)
      requires subPackages == AddSubpackage(subs, id, parent)
      requires stamp == stamp0[id := clock0 + 1] && clock == clock0 + 1
      requires AffectedDistinct(affectedMounts) && Seqs.Distinct(currentPackageMounts)
      requires Seqs.Distinct(affectedOrder) && (forall p :: p in affectedMounts <==> p in affectedOrder)
      ensures Valid()
    {
      AddSubpackageKeepsRanked(subs, stamp0, clock0, id, parent);
    }

    /** `handlePath`: the mount holding a path that is not ignored is added to the current package's mounts. */
    method HandlePath(path: string)
      requires Valid()
      modifies `currentPackageMounts
      ensures Valid()
      ensures currentPackageMounts == Handled(hasNonDefaultMounts, mountByPath, old(currentPackageMounts), path)
    {
      if !Ignored(hasNonDefaultMounts, path) {
        currentPackageMounts := Seqs.Added(currentPackageMounts, mountByPath(path));
      }
    }

    /** `importedPath`. */
    method ImportedPath(id: PackageId, path: string)
      requires Valid()
      modifies `currentPackageMounts
      ensures Valid()
      ensures currentPackageMounts == Handled(hasNonDefaultMounts, mountByPath, old(currentPackageMounts), path)
    {
      HandlePath(path);
    }

    /** `deletedPath`. */
    method DeletedPath(id: PackageId, path: string)
      requires Valid()
      modifies `currentPackageMounts
      ensures Valid()
      ensures currentPackageMounts == Handled(hasNonDefaultMounts, mountByPath, old(currentPackageMounts), path)
    {
      HandlePath(path);
    }

    /** `afterExtract`: the mounts gathered for the package are recorded for it, and gathering starts over. */
    method AfterExtract(id: PackageId)
      requires Valid()
      modifies `affectedMounts, `affectedOrder, `currentPackageMounts
      ensures Valid()
      ensures affectedMounts == old(affectedMounts)[id := old(currentPackageMounts)]
      ensures affectedOrder == if id in old(affectedMounts) then old(affectedOrder) else old(affectedOrder) + [id]
      ensures currentPackageMounts == []
    {
      if id !in affectedMounts {
        affectedOrder := affectedOrder + [id];
      }
      affectedMounts := affectedMounts[id := currentPackageMounts];
      currentPackageMounts := [];
    }

    /** `getMountsAffectedByPackageGraph`, recursing over the subpackages in their order. */
    method MountsAffectedByPackageGraph(root: PackageId) returns (r: seq<string>)
      requires Valid()
      ensures r == GraphMounts(subPackages, stamp, clock, affectedMounts, root)
      decreases Rank(subPackages, stamp, clock, root)
    {
      var kids := Children(subPackages, root);
      r := Own(affectedMounts, root);
      for i := 0 to |kids|
        invariant r == KidsMounts(subPackages, stamp, clock, affectedMounts, root, kids[..i])
      {
        assert kids[..i + 1][..i] == kids[..i];
        var sub := MountsAffectedByPackageGraph(kids[i]);
        r := Seqs.AddAll(r, sub);
      }
      assert kids[..|kids|] == kids;
    }

    /** One pass of `finishedScan`'s loop: the violation to report for `id`, if any. */
    method PackageReport(id: PackageId) returns (r: seq<Violation>)
      requires Valid()
      ensures r == Verdict(severity, scopePackageIds, regex, subPackages, stamp, clock, affectedMounts, id)
    {
      r := [];
      var excluded := Rules.LastMatchFuzzy(scopePackageIds, regex, id).IsExclude();
      if !excluded {
        var own := Own(affectedMounts, id);
        if |own| > 1 {
          r := [Violation(severity, NotAlignedText(own), [id])];
        } else if |own| > 0 {
          var graph := MountsAffectedByPackageGraph(id);
          if |graph| > 1 {
            r := [Violation(severity, RecursiveText(graph), [id])];
          }
        }
      }
    }

    /** `finishedScan`: each package that affected mounts is judged in turn, in the order they were recorded. */
    method FinishedScan()
      requires Valid()
      modifies `reported
      ensures reported == old(reported) +
        Verdicts(severity, scopePackageIds, regex, subPackages, stamp, clock, affectedMounts, affectedOrder)
    {
      var found := PackageReports(affectedOrder);
      reported := reported + found;
    }

    /** `finishedScan`'s loop: each of `ids` judged in turn. */
    method PackageReports(ids: seq<PackageId>) returns (found: seq<Violation>)
      requires Valid()
      ensures found == Verdicts(severity, scopePackageIds, regex, subPackages, stamp, clock, affectedMounts, ids)
    {
      found := [];
      for k := 0 to |ids|
        invariant found == Verdicts(severity, scopePackageIds, regex, subPackages, stamp, clock, affectedMounts, ids[..k])
      {
        VerdictsStep(severity, scopePackageIds, regex, subPackages, stamp, clock, affectedMounts, ids, k);
        var verdict := PackageReport(ids[k]);
        found := found + verdict;
      }
      assert ids[..|ids|] == ids;
    }
  }
}
