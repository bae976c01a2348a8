/**
 * The checklist exporter of the webster tool (`ChecklistExporter`). The exporter finds forced roots in a
 * repository session, either by path, by a query statement or by node type. It then updates a checklist: the
 * checklist's existing forced roots are renamed into the new namespace prefixes and filtered by an update policy,
 * and the newly found roots are merged over them into one sorted list with one root per path.
 *
 * The session is given as oracles:
 * - `NodeLookup` answers `session.nodeExists` and `session.getNode`;
 * - `QueryRunner` answers the nodes that a query statement returns;
 * - `TypeOracle` answers `NodeTypeManager.hasNodeType`.
 * The namespace renaming of names is the oracle `NameRemap`.
 */
module ChecklistExporters {
  import opened Wrappers
  import opened JavaResult
  import JavaString
  import Rules
  import NamespaceMappingRequests

  type JcrNs = NamespaceMappingRequests.JcrNs

  // ---------------------------------------------------------------------------------------------------------------
  // Selector types and update policies
  // ---------------------------------------------------------------------------------------------------------------

  /** How an export operation selects nodes. */
  datatype SelectorType = Query | Path | NodeType {
    function Name(): string {
      match this
      case Query => "QUERY"
      case Path => "PATH"
      case NodeType => "NODETYPE"
    }
  }

  /** `SelectorType.byName`: the first constant whose name equals `name` ignoring case; any other name throws. */
  function SelectorTypeByName(name: string): (r: Result<SelectorType>)
    ensures r.Success? <==> exists t: SelectorType :: JavaString.EqualsIgnoreCase(t.Name(), name)
    ensures r.Success? ==> JavaString.EqualsIgnoreCase(r.value.Name(), name)
    ensures r.Failure? ==> r.error == Exception("IllegalArgumentException", "Unknown selector type: " + name)
  {
    if JavaString.EqualsIgnoreCase(Query.Name(), name) then Success(Query)
    else if JavaString.EqualsIgnoreCase(Path.Name(), name) then Success(Path)
    else if JavaString.EqualsIgnoreCase(NodeType.Name(), name) then Success(NodeType)
    else Failure(Exception("IllegalArgumentException", "Unknown selector type: " + name))
  }

  /** Every spelling of a selector type's name, in any letter case, selects exactly that type. */
  lemma SelectorTypeByAnyCase(t: SelectorType, name: string)
    requires JavaString.EqualsIgnoreCase(t.Name(), name)
    ensures SelectorTypeByName(name) == Success(t)
  {
    assert |name| == |t.Name()|;
  }

  /** What happens to the forced roots a checklist already has when new ones are exported into it. */
  datatype ForcedRootUpdatePolicy = Truncate | Replace | Merge {
    function Name(): string {
      match this
      case Truncate => "TRUNCATE"
      case Replace => "REPLACE"
      case Merge => "MERGE"
    }
  }

  /** The policy used when none is given. */
  const DefaultUpdatePolicy: ForcedRootUpdatePolicy := Replace

  /** `ForcedRootUpdatePolicy.byName`: the first constant whose name equals `name` ignoring case; any other throws. */
  function PolicyByName(name: string): (r: Result<ForcedRootUpdatePolicy>)
    ensures r.Success? <==> exists p: ForcedRootUpdatePolicy :: JavaString.EqualsIgnoreCase(p.Name(), name)
    ensures r.Success? ==> JavaString.EqualsIgnoreCase(r.value.Name(), name)
    ensures r.Failure? ==> r.error == Exception("IllegalArgumentException", "Unknown policy name: " + name)
  {
    if JavaString.EqualsIgnoreCase(Truncate.Name(), name) then Success(Truncate)
    else if JavaString.EqualsIgnoreCase(Replace.Name(), name) then Success(Replace)
    else if JavaString.EqualsIgnoreCase(Merge.Name(), name) then Success(Merge)
    else Failure(Exception("IllegalArgumentException", "Unknown policy name: " + name))
  }

  /** Every spelling of a policy's name, in any letter case, selects exactly that policy. */
  lemma PolicyByAnyCase(p: ForcedRootUpdatePolicy, name: string)
    requires JavaString.EqualsIgnoreCase(p.Name(), name)
    ensures PolicyByName(name) == Success(p)
  {
    assert |name| == |p.Name()|;
  }

  // ---------------------------------------------------------------------------------------------------------------
  // Roots, nodes and the exporter
  // ---------------------------------------------------------------------------------------------------------------

  /** A forced root: a path a checklist requires, with the primary type and mixin types it should carry. */
  datatype ForcedRoot = ForcedRoot(path: string, primaryType: Option<string>, mixinTypes: seq<string>)

  /** A repository node as the session shows it: its path and the names of its primary and mixin types. */
  datatype JcrNode = JcrNode(path: string, primaryType: string, mixinTypes: seq<string>)

  /** One export operation: a selector and its arguments. */
  datatype Op = Op(selectorType: SelectorType, args: seq<string>)

  /** The immutable exporter that `Builder.build` returns. */
  datatype Exporter = Exporter(
    operations: seq<Op>,
    exportTypeDefs: seq<string>,
    pathScopes: seq<Rules.Rule>,
    nodeTypeFilters: seq<Rules.Rule>,
    jcrNamespaces: Option<seq<JcrNs>>)

  /** Every query operation carries the statement that `findRoots` reads as its first argument. */
  predicate QueriesHaveStatements(operations: seq<Op>) {
    forall i :: 0 <= i < |operations| && operations[i].selectorType == Query ==> |operations[i].args| > 0
  }

  /** Every node type that a node-type operation selects is also listed among the node types to export. */
  predicate NodeTypesExported(operations: seq<Op>, exportTypeDefs: seq<string>) {
    forall i, a :: 0 <= i < |operations| && operations[i].selectorType == NodeType && a in operations[i].args ==>
      a in exportTypeDefs
  }

  /** `ChecklistExporter.Builder`: collects the operations, scopes, filters and namespaces of an exporter. */
  class Builder {
    var operations: seq<Op>
    var exportTypeDefs: seq<string>
    var pathScopes: seq<Rules.Rule>
    var nodeTypeFilters: seq<Rules.Rule>
    var nsMapping: Option<seq<JcrNs>>

    ghost predicate Valid()
      reads this
    {
      QueriesHaveStatements(operations) && NodeTypesExported(operations, exportTypeDefs)
    }

    constructor ()
      ensures Valid()
      ensures operations == [] && exportTypeDefs == [] && pathScopes == [] && nodeTypeFilters == []
      ensures nsMapping == Some([])
    {
      operations := [];
      exportTypeDefs := [];
      pathScopes := [];
      nodeTypeFilters := [];
      nsMapping := Some([]);
    }

    /** `byPath`: export the nodes at these paths. */
    method ByPath(paths: seq<string>)
      requires Valid()
      modifies this
      ensures Valid()
      ensures operations == old(operations) + [Op(Path, paths)]
      ensures exportTypeDefs == old(exportTypeDefs) && pathScopes == old(pathScopes)
      ensures nodeTypeFilters == old(nodeTypeFilters) && nsMapping == old(nsMapping)
    {
      operations := operations + [Op(Path, paths)];
    }

    /** `byQuery`: export the nodes a query statement returns. */
    method ByQuery(statement: string)
      requires Valid()
      modifies this
      ensures Valid()
      ensures operations == old(operations) + [Op(Query, [statement])]
      ensures exportTypeDefs == old(exportTypeDefs) && pathScopes == old(pathScopes)
      ensures nodeTypeFilters == old(nodeTypeFilters) && nsMapping == old(nsMapping)
    {
      operations := operations + [Op(Query, [statement])];
    }

    /** `byNodeType`: export the nodes of these types, and export the type definitions themselves. */
    method ByNodeType(nodeTypes: seq<string>)
      requires Valid()
      modifies this
      ensures Valid()
      ensures operations == old(operations) + [Op(NodeType, nodeTypes)]
      ensures exportTypeDefs == old(exportTypeDefs) + nodeTypes
      ensures pathScopes == old(pathScopes) && nodeTypeFilters == old(nodeTypeFilters) && nsMapping == old(nsMapping)
    {
      operations := operations + [Op(NodeType, nodeTypes)];
      exportTypeDefs := exportTypeDefs + nodeTypes;
    }

    /** `withScopePaths`: a null list means no scopes. */
    method WithScopePaths(scopePaths: Option<seq<Rules.Rule>>)
      requires Valid()
      modifies this
      ensures Valid()
      ensures pathScopes == scopePaths.GetOrElse([])
      ensures operations == old(operations) && exportTypeDefs == old(exportTypeDefs)
      ensures nodeTypeFilters == old(nodeTypeFilters) && nsMapping == old(nsMapping)
    {
      pathScopes := scopePaths.GetOrElse([]);
    }

    /** `withNodeTypeFilters`: a null list means no filters. */
    method WithNodeTypeFilters(filters: Option<seq<Rules.Rule>>)
      requires Valid()
      modifies this
      ensures Valid()
      ensures nodeTypeFilters == filters.GetOrElse([])
      ensures operations == old(operations) && exportTypeDefs == old(exportTypeDefs)
      ensures pathScopes == old(pathScopes) && nsMapping == old(nsMapping)
    {
      nodeTypeFilters := filters.GetOrElse([]);
    }

    /** `withJcrNamespaces`: the list is kept as given, null included. */
    method WithJcrNamespaces(jcrNamespaces: Option<seq<JcrNs>>)
      requires Valid()
      modifies this
      ensures Valid()
      ensures nsMapping == jcrNamespaces
      ensures operations == old(operations) && exportTypeDefs == old(exportTypeDefs)
      ensures pathScopes == old(pathScopes) && nodeTypeFilters == old(nodeTypeFilters)
    {
      nsMapping := jcrNamespaces;
    }

    /** `withExportNodeTypes`: a null list adds nothing. */
    method WithExportNodeTypes(exportNodeTypes: Option<seq<string>>)
      requires Valid()
      modifies this
      ensures Valid()
      ensures exportTypeDefs == old(exportTypeDefs) + exportNodeTypes.GetOrElse([])
      ensures operations == old(operations) && pathScopes == old(pathScopes)
      ensures nodeTypeFilters == old(nodeTypeFilters) && nsMapping == old(nsMapping)
    {
      if exportNodeTypes.Some? {
        exportTypeDefs := exportTypeDefs + exportNodeTypes.value;
      }
    }

    /** `build`: an exporter whose every query operation has its statement. */
    function Build(): (e: Exporter)
      reads this
      requires Valid()
      ensures QueriesHaveStatements(e.operations) && NodeTypesExported(e.operations, e.exportTypeDefs)
      ensures e.operations == operations && e.exportTypeDefs == exportTypeDefs && e.pathScopes == pathScopes
      ensures e.nodeTypeFilters == nodeTypeFilters && e.jcrNamespaces == nsMapping
    {
      Exporter(operations, exportTypeDefs, pathScopes, nodeTypeFilters, nsMapping)
    }
  }

  // ---------------------------------------------------------------------------------------------------------------
  // From nodes to forced roots
  // ---------------------------------------------------------------------------------------------------------------

  /** A path is out of scope when it last-matches an exclude rule of the path scopes. */
  predicate OutOfScope(exporter: Exporter, regex: Rules.RegexMatcher, path: string) {
    Rules.LastMatchFuzzy(exporter.pathScopes, regex, path).IsExclude()
  }

  /** A node type name passes the filters when it last-matches an include rule of the node type filters. */
  predicate TypeIncluded(exporter: Exporter, regex: Rules.RegexMatcher, name: string) {
    Rules.LastMatchFuzzy(exporter.nodeTypeFilters, regex, name).IsInclude()
  }

  /** The mixin names that pass the node type filters, in their order. */
  function IncludedTypes(exporter: Exporter, regex: Rules.RegexMatcher, names: seq<string>): (r: seq<string>)
    ensures |r| <= |names|
    ensures forall n :: n in r <==> n in names && TypeIncluded(exporter, regex, n)
  {
    if |names| == 0 then []
    else
      var last := names[|names| - 1];
      assert names == names[..|names| - 1] + [last];
      IncludedTypes(exporter, regex, names[..|names| - 1]) + (if TypeIncluded(exporter, regex, last) then [last] else [])
  }

  /** The filter keeps the order of the names: filtering two lists one after the other is filtering them joined. */
  lemma {:induction false} IncludedTypesAppend(exporter: Exporter, regex: Rules.RegexMatcher, a: seq<string>,
                                               b: seq<string>)
    ensures IncludedTypes(exporter, regex, a + b) == IncludedTypes(exporter, regex, a) + IncludedTypes(exporter, regex, b)
  {
    if |b| == 0 {
      assert a + b == a;
    } else {
      var init := b[..|b| - 1];
      assert (a + b)[..|a + b| - 1] == a + init;
      IncludedTypesAppend(exporter, regex, a, init);
    }
  }

  /**
   * `nodeToRoot`: no root for a node whose path is out of scope; otherwise a root at the node's path carrying
   * the primary type and the mixin types that pass the node type filters.
   */
  function NodeToRoot(exporter: Exporter, regex: Rules.RegexMatcher, node: JcrNode): (r: Option<ForcedRoot>)
    ensures r.None? <==> OutOfScope(exporter, regex, node.path)
    ensures r.Some? ==> r.value.path == node.path
    ensures r.Some? ==> (r.value.primaryType.Some? <==> TypeIncluded(exporter, regex, node.primaryType))
    ensures r.Some? && r.value.primaryType.Some? ==> r.value.primaryType.value == node.primaryType
    ensures r.Some? ==> forall n :: n in r.value.mixinTypes <==> n in node.mixinTypes && TypeIncluded(exporter, regex, n)
  {
    if OutOfScope(exporter, regex, node.path) then None
    else
      var primary := if TypeIncluded(exporter, regex, node.primaryType) then Some(node.primaryType) else None;
      Some(ForcedRoot(node.path, primary, IncludedTypes(exporter, regex, node.mixinTypes)))
  }

  /** Every root in the list is at a path that the exporter's scopes keep in scope. */
  predicate AllInScope(exporter: Exporter, regex: Rules.RegexMatcher, roots: seq<ForcedRoot>) {
    forall i :: 0 <= i < |roots| ==> !OutOfScope(exporter, regex, roots[i].path)
  }

  /** `session.nodeExists(path)` together with `session.getNode(path)`. */
  type NodeLookup = string -> Option<JcrNode>

  /** The nodes a query statement returns, in result order. */
  type QueryRunner = string -> seq<JcrNode>

  /** `NodeTypeManager.hasNodeType`, where a failure counts as false. */
  type TypeOracle = string -> bool

  /** The roots of the nodes that exist at the given paths, in path order. */
  function Traversed(exporter: Exporter, regex: Rules.RegexMatcher, nodeAt: NodeLookup, paths: seq<string>)
    : (r: seq<ForcedRoot>)
    ensures |r| <= |paths|
    ensures AllInScope(exporter, regex, r)
  {
    if |paths| == 0 then []
    else
      var rest := Traversed(exporter, regex, nodeAt, paths[..|paths| - 1]);
      var node := nodeAt(paths[|paths| - 1]);
      if node.Some? && NodeToRoot(exporter, regex, node.value).Some? then
        rest + [NodeToRoot(exporter, regex, node.value).value]
      else rest
  }

  /** `traverse`: one root per existing, in-scope path. */
  method Traverse(exporter: Exporter, regex: Rules.RegexMatcher, nodeAt: NodeLookup, paths: seq<string>)
    returns (roots: seq<ForcedRoot>)
    ensures roots == Traversed(exporter, regex, nodeAt, paths)
  {
    roots := [];
    for i := 0 to |paths|
      invariant roots == Traversed(exporter, regex, nodeAt, paths[..i])
    {
      assert paths[..i + 1][..i] == paths[..i];
      var node := nodeAt(paths[i]);
      if node.Some? {
        var root := NodeToRoot(exporter, regex, node.value);
        if root.Some? {
          roots := roots + [root.value];
        }
      }
    }
    assert paths[..|paths|] == paths;
  }

  /** The in-scope roots of a list of nodes, in node order, duplicates kept. */
  function RootsOf(exporter: Exporter, regex: Rules.RegexMatcher, nodes: seq<JcrNode>): (r: seq<ForcedRoot>)
    ensures |r| <= |nodes|
    ensures AllInScope(exporter, regex, r)
  {
    if |nodes| == 0 then []
    else
      var rest := RootsOf(exporter, regex, nodes[..|nodes| - 1]);
      var root := NodeToRoot(exporter, regex, nodes[|nodes| - 1]);
      if root.Some? then rest + [root.value] else rest
  }

  /** The roots a query finds: its in-scope roots put into a path-keyed map, keeping the first position. */
  function Queried(exporter: Exporter, regex: Rules.RegexMatcher, run: QueryRunner, statement: string)
    : (r: seq<ForcedRoot>)
    ensures UniquePaths(r) && AllInScope(exporter, regex, r)
  {
    var roots := RootsOf(exporter, regex, run(statement));
    PutAllUnique([], roots);
    PutAllInScope(exporter, regex, [], roots);
    PutAll([], roots)
  }

  /** `query`: collects the in-scope roots of the query's nodes into a map keyed by path. */
  method RunQuery(exporter: Exporter, regex: Rules.RegexMatcher, run: QueryRunner, statement: string)
    returns (roots: seq<ForcedRoot>)
    ensures roots == Queried(exporter, regex, run, statement)
  {
    var nodes := run(statement);
    roots := [];
    for i := 0 to |nodes|
      invariant roots == PutAll([], RootsOf(exporter, regex, nodes[..i]))
    {
      assert nodes[..i + 1][..i] == nodes[..i];
      var root := NodeToRoot(exporter, regex, nodes[i]);
      if root.Some? {
        roots := Put(roots, root.value);
      }
    }
    assert nodes[..|nodes|] == nodes;
  }

  /** The roots one operation finds. */
  function OpRoots(exporter: Exporter, regex: Rules.RegexMatcher, nodeAt: NodeLookup, run: QueryRunner,
                   hasNodeType: TypeOracle, op: Op): (r: seq<ForcedRoot>)
    requires op.selectorType == Query ==> |op.args| > 0
    ensures AllInScope(exporter, regex, r)
  {
    match op.selectorType
    case Path => Traversed(exporter, regex, nodeAt, op.args)
    case NodeType => Queried(exporter, regex, run, NtStatement(op.args, hasNodeType))
    case Query => Queried(exporter, regex, run, op.args[0])
  }

  /** The roots all operations find, operation by operation. */
  function Found(exporter: Exporter, regex: Rules.RegexMatcher, nodeAt: NodeLookup, run: QueryRunner,
                 hasNodeType: TypeOracle, ops: seq<Op>): (r: seq<ForcedRoot>)
    requires QueriesHaveStatements(ops)
    ensures AllInScope(exporter, regex, r)
  {
    if |ops| == 0 then []
    else
      Found(exporter, regex, nodeAt, run, hasNodeType, ops[..|ops| - 1])
        + OpRoots(exporter, regex, nodeAt, run, hasNodeType, ops[|ops| - 1])
  }

  /** `findRoots`: runs every operation in order and concatenates what each finds. */
  method FindRoots(exporter: Exporter, regex: Rules.RegexMatcher, nodeAt: NodeLookup, run: QueryRunner,
                   hasNodeType: TypeOracle) returns (roots: seq<ForcedRoot>)
    requires QueriesHaveStatements(exporter.operations)
    ensures roots == Found(exporter, regex, nodeAt, run, hasNodeType, exporter.operations)
    ensures AllInScope(exporter, regex, roots)
  {
    var ops := exporter.operations;
    roots := [];
    for i := 0 to |ops|
      invariant roots == Found(exporter, regex, nodeAt, run, hasNodeType, ops[..i])
    {
      assert ops[..i + 1][..i] == ops[..i];
      var op := ops[i];
      var found: seq<ForcedRoot>;
      match op.selectorType {
        case Path =>
          found := Traverse(exporter, regex, nodeAt, op.args);
        case NodeType =>
          found := RunQuery(exporter, regex, run, NtStatement(op.args, hasNodeType));
        case Query =>
          found := RunQuery(exporter, regex, run, op.args[0]);
      }
      roots := roots + found;
    }
    assert ops[..|ops|] == ops;
  }

  // ---------------------------------------------------------------------------------------------------------------
  // Roots keyed by path: the insertion-ordered map of `updateChecklist` and `query`
  // ---------------------------------------------------------------------------------------------------------------

  /** No two roots share a path. */
  predicate UniquePaths(entries: seq<ForcedRoot>) {
    forall i, j :: 0 <= i < j < |entries| ==> entries[i].path != entries[j].path
  }

  /** The position of the first root with the path, or -1. */
  function IndexOfPath(entries: seq<ForcedRoot>, path: string): (k: int)
    ensures -1 <= k < |entries|
    ensures k >= 0 ==> entries[k].path == path
    ensures forall i :: 0 <= i < |entries| && (k < 0 || i < k) ==> entries[i].path != path
  {
    if |entries| == 0 then -1
    else if entries[0].path == path then 0
    else
      var k := IndexOfPath(entries[1..], path);
      if k < 0 then -1 else k + 1
  }

  /** The first index with the path is the only index meeting `IndexOfPath`'s contract. */
  lemma IndexOfPathIs(entries: seq<ForcedRoot>, path: string, k: int)
    requires -1 <= k < |entries|
    requires k >= 0 ==> entries[k].path == path
    requires forall i :: 0 <= i < |entries| && (k < 0 || i < k) ==> entries[i].path != path
    ensures IndexOfPath(entries, path) == k
  {
  }

  /** `get(path)` on the map. */
  function Lookup(entries: seq<ForcedRoot>, path: string): (r: Option<ForcedRoot>)
  {
    var k := IndexOfPath(entries, path);
    if k < 0 then None else Some(entries[k])
  }

  /** A root of a map with unique paths is what its own path looks up. */
  lemma LookupMember(entries: seq<ForcedRoot>, i: int)
    requires UniquePaths(entries) && 0 <= i < |entries|
    ensures Lookup(entries, entries[i].path) == Some(entries[i])
  {
    IndexOfPathIs(entries, entries[i].path, i);
  }

  /**
   * `put(root.getPath(), root)` on a map that keeps insertion order: a path already present keeps its position and
   * takes the new root; a new path is appended.
   */
  function Put(entries: seq<ForcedRoot>, root: ForcedRoot): seq<ForcedRoot>
  {
    var k := IndexOfPath(entries, root.path);
    if k < 0 then entries + [root] else entries[k := root]
  }

  /** After a put, the root's path looks up the root and every other path looks up what it did before. */
  lemma PutLookup(entries: seq<ForcedRoot>, root: ForcedRoot, path: string)
    ensures Lookup(Put(entries, root), path) == (if path == root.path then Some(root) else Lookup(entries, path))
  {
    var k := IndexOfPath(entries, root.path);
    var m := IndexOfPath(entries, path);
    var r := Put(entries, root);
    if path == root.path {
      IndexOfPathIs(r, path, if k < 0 then |entries| else k);
    } else {
      IndexOfPathIs(r, path, m);
    }
  }

  /** A put keeps paths unique, and only adds the root: every entry is the root or was there before. */
  lemma PutKeeps(entries: seq<ForcedRoot>, root: ForcedRoot)
    ensures UniquePaths(entries) ==> UniquePaths(Put(entries, root))
    ensures forall x :: x in Put(entries, root) ==> x == root || x in entries
  {
    var k := IndexOfPath(entries, root.path);
    var r := Put(entries, root);
    forall x | x in r
      ensures x == root || x in entries
    {
      var i :| 0 <= i < |r| && r[i] == x;
      if i < |entries| && i != k {
        assert x == entries[i];
      }
    }
  }

  /**
   * Putting each root in turn, as `roots.forEach(root -> map.put(root.getPath(), root))` does: every root of the
   * map was there before or was put.
   */
  function PutAll(entries: seq<ForcedRoot>, roots: seq<ForcedRoot>): (r: seq<ForcedRoot>)
    ensures forall x :: x in r ==> x in entries || x in roots
  {
    if |roots| == 0 then entries
    else
      var init := roots[..|roots| - 1];
      var before := PutAll(entries, init);
      PutKeeps(before, roots[|roots| - 1]);
      assert forall x :: x in init ==> x in roots;
      Put(before, roots[|roots| - 1])
  }

  /** The last root with the path, if any. */
  function LastWithPath(roots: seq<ForcedRoot>, path: string): (r: Option<ForcedRoot>)
    ensures r.Some? ==> r.value in roots && r.value.path == path
    ensures r.None? <==> forall i :: 0 <= i < |roots| ==> roots[i].path != path
  {
    if |roots| == 0 then None
    else if roots[|roots| - 1].path == path then Some(roots[|roots| - 1])
    else
      var r := LastWithPath(roots[..|roots| - 1], path);
      assert forall i :: 0 <= i < |roots| - 1 ==> roots[..|roots| - 1][i] == roots[i];
      r
  }

  /** After putting all roots, a path looks up the last root put with it, else what it looked up before. */
  lemma {:induction false} PutAllLookup(entries: seq<ForcedRoot>, roots: seq<ForcedRoot>, path: string)
    ensures Lookup(PutAll(entries, roots), path) ==
      (if LastWithPath(roots, path).Some? then LastWithPath(roots, path) else Lookup(entries, path))
  {
    if |roots| > 0 {
      PutAllLookup(entries, roots[..|roots| - 1], path);
      PutLookup(PutAll(entries, roots[..|roots| - 1]), roots[|roots| - 1], path);
    }
  }

  /** Putting roots keeps paths unique. */
  lemma {:induction false} PutAllUnique(entries: seq<ForcedRoot>, roots: seq<ForcedRoot>)
    requires UniquePaths(entries)
    ensures UniquePaths(PutAll(entries, roots))
  {
    if |roots| > 0 {
      PutAllUnique(entries, roots[..|roots| - 1]);
      PutKeeps(PutAll(entries, roots[..|roots| - 1]), roots[|roots| - 1]);
    }
  }

  /** Putting in-scope roots into an in-scope map keeps it in scope. */
  lemma {:induction false} PutAllInScope(exporter: Exporter, regex: Rules.RegexMatcher, entries: seq<ForcedRoot>,
                                         roots: seq<ForcedRoot>)
    requires AllInScope(exporter, regex, entries) && AllInScope(exporter, regex, roots)
    ensures AllInScope(exporter, regex, PutAll(entries, roots))
  {
    if |roots| > 0 {
      var init := roots[..|roots| - 1];
      var before := PutAll(entries, init);
      PutAllInScope(exporter, regex, entries, init);
      var k := IndexOfPath(before, roots[|roots| - 1].path);
      assert Put(before, roots[|roots| - 1]) == (if k < 0 then before + [roots[|roots| - 1]] else before[k := roots[|roots| - 1]]);
    }
  }

  // ---------------------------------------------------------------------------------------------------------------
  // Sorting by path
  // ---------------------------------------------------------------------------------------------------------------

  /** `ForcedRoot.compareTo`: roots are ordered by their paths. */
  predicate SortedByPath(roots: seq<ForcedRoot>) {
    forall i, j :: 0 <= i < j < |roots| ==> JavaString.CompareStrings(roots[i].path, roots[j].path) <= 0
  }

  /** `String.compareTo` read as "at most" is transitive. */
  lemma AtMostTransitive(a: string, b: string, c: string)
    requires JavaString.CompareStrings(a, b) <= 0 && JavaString.CompareStrings(b, c) <= 0
    ensures JavaString.CompareStrings(a, c) <= 0
  {
    if a != b && b != c {
      JavaString.CompareStringsTransitive(a, b, c);
    }
  }

  /** Inserts a root after every root whose path is not greater, as a stable sort places it. */
  function InsertByPath(sorted: seq<ForcedRoot>, root: ForcedRoot): (r: seq<ForcedRoot>)
    requires SortedByPath(sorted)
    ensures SortedByPath(r)
    ensures multiset(r) == multiset(sorted) + multiset{root}
  {
    if |sorted| == 0 then [root]
    else if JavaString.CompareStrings(root.path, sorted[0].path) < 0 then
      BelowHeadBelowAll(sorted, root);
      ConsSorted(root, sorted);
      [root] + sorted
    else
      var rest := InsertByPath(sorted[1..], root);
      HeadBelowInsert(sorted, root, rest);
      ConsSorted(sorted[0], rest);
      assert sorted == [sorted[0]] + sorted[1..];
      [sorted[0]] + rest
  }

  /** A root before the first of sorted roots is before all of them. */
  lemma BelowHeadBelowAll(sorted: seq<ForcedRoot>, root: ForcedRoot)
    requires SortedByPath(sorted) && |sorted| > 0 && JavaString.CompareStrings(root.path, sorted[0].path) < 0
    ensures forall x :: x in sorted ==> JavaString.CompareStrings(root.path, x.path) <= 0
  {
    forall j | 0 <= j < |sorted|
      ensures JavaString.CompareStrings(root.path, sorted[j].path) <= 0
    {
      if j > 0 {
        AtMostTransitive(root.path, sorted[0].path, sorted[j].path);
      }
    }
  }

  /** The first of sorted roots is not after any root of the rest with one root inserted after it. */
  lemma HeadBelowInsert(sorted: seq<ForcedRoot>, root: ForcedRoot, rest: seq<ForcedRoot>)
    requires SortedByPath(sorted) && |sorted| > 0 && JavaString.CompareStrings(root.path, sorted[0].path) >= 0
    requires multiset(rest) == multiset(sorted[1..]) + multiset{root}
    ensures forall x :: x in rest ==> JavaString.CompareStrings(sorted[0].path, x.path) <= 0
  {
    JavaString.CompareStringsAntisymmetric(root.path, sorted[0].path);
    forall x | x in rest
      ensures JavaString.CompareStrings(sorted[0].path, x.path) <= 0
    {
      assert x in multiset(rest);
      if x != root {
        assert x in sorted[1..];
      }
    }
  }

  /** A root not after any of sorted roots can go first. */
  lemma ConsSorted(head: ForcedRoot, rest: seq<ForcedRoot>)
    requires SortedByPath(rest) && forall x :: x in rest ==> JavaString.CompareStrings(head.path, x.path) <= 0
    ensures SortedByPath([head] + rest)
  {
    var r := [head] + rest;
    forall i, j | 0 <= i < j < |r|
      ensures JavaString.CompareStrings(r[i].path, r[j].path) <= 0
    {
      assert r[j] == rest[j - 1];
      if i > 0 {
        assert r[i] == rest[i - 1];
      }
    }
  }

  /** `Collections.sort` on roots: the same roots, ordered by path. */
  function SortByPath(roots: seq<ForcedRoot>): (r: seq<ForcedRoot>)
    ensures SortedByPath(r)
    ensures multiset(r) == multiset(roots)
  {
    if |roots| == 0 then []
    else
      assert roots == roots[..|roots| - 1] + [roots[|roots| - 1]];
      InsertByPath(SortByPath(roots[..|roots| - 1]), roots[|roots| - 1])
  }

  /** Sorting roots with unique paths keeps them unique. */
  lemma SortKeepsUnique(roots: seq<ForcedRoot>)
    requires UniquePaths(roots)
    ensures UniquePaths(SortByPath(roots))
  {
    var r := SortByPath(roots);
    forall i, j | 0 <= i < j < |r|
      ensures r[i].path != r[j].path
    {
      SortedPairDiffers(roots, r, i, j);
    }
  }

  /** Two positions of a permutation of roots with unique paths hold roots of different paths. */
  lemma SortedPairDiffers(roots: seq<ForcedRoot>, r: seq<ForcedRoot>, i: int, j: int)
    requires UniquePaths(roots) && multiset(r) == multiset(roots) && 0 <= i < j < |r|
    ensures r[i].path != r[j].path
  {
    assert r[i] in multiset(roots) && r[j] in multiset(roots);
    var a :| 0 <= a < |roots| && roots[a] == r[i];
    var b :| 0 <= b < |roots| && roots[b] == r[j];
    if r[i] == r[j] {
      SameTwiceCounts(r, i, j);
      SingleCounts(roots, a);
    }
  }

  /** Sorting roots with unique paths keeps them unique, and every path looks up the same root as before. */
  lemma SortKeepsLookup(roots: seq<ForcedRoot>, path: string)
    requires UniquePaths(roots)
    ensures UniquePaths(SortByPath(roots))
    ensures Lookup(SortByPath(roots), path) == Lookup(roots, path)
  {
    var r := SortByPath(roots);
    SortKeepsUnique(roots);
    var k := IndexOfPath(roots, path);
    if k >= 0 {
      assert roots[k] in multiset(r);
      var m :| 0 <= m < |r| && r[m] == roots[k];
      LookupMember(r, m);
    } else {
      forall i | 0 <= i < |r|
        ensures r[i].path != path
      {
        assert r[i] in multiset(roots);
      }
    }
  }

  /** A value at two positions occurs at least twice. */
  lemma SameTwiceCounts(s: seq<ForcedRoot>, i: int, j: int)
    requires 0 <= i < j < |s| && s[i] == s[j]
    ensures multiset(s)[s[i]] >= 2
  {
    assert s == s[..i] + [s[i]] + s[i + 1..j] + [s[j]] + s[j + 1..];
  }

  /** In a list with unique paths, a root occurs once. */
  lemma {:induction false} SingleCounts(s: seq<ForcedRoot>, a: int)
    requires UniquePaths(s) && 0 <= a < |s|
    ensures multiset(s)[s[a]] == 1
  {
    assert s == s[..a] + [s[a]] + s[a + 1..];
    assert s[a] !in s[..a] && s[a] !in s[a + 1..];
  }

  // ---------------------------------------------------------------------------------------------------------------
  // Updating a checklist's forced roots
  // ---------------------------------------------------------------------------------------------------------------

  /** `getRetainFilter(updatePolicy)` applied to an existing root; a null policy is the default, REPLACE. */
  predicate Retains(exporter: Exporter, policy: Option<ForcedRootUpdatePolicy>, regex: Rules.RegexMatcher,
                    root: ForcedRoot) {
    match policy.GetOrElse(DefaultUpdatePolicy)
    case Truncate => false
    case Replace => OutOfScope(exporter, regex, root.path)
    case Merge => true
  }

  /**
   * The policies are ordered: TRUNCATE keeps nothing, what REPLACE keeps MERGE keeps too, MERGE keeps everything,
   * and no policy means REPLACE.
   */
  lemma RetainPolicies(exporter: Exporter, regex: Rules.RegexMatcher, root: ForcedRoot)
    ensures !Retains(exporter, Some(Truncate), regex, root)
    ensures Retains(exporter, Some(Replace), regex, root) ==> Retains(exporter, Some(Merge), regex, root)
    ensures Retains(exporter, Some(Merge), regex, root)
    ensures Retains(exporter, None, regex, root) <==> Retains(exporter, Some(Replace), regex, root)
  {
  }

  /**
   * REPLACE keeps exactly the existing roots the exporter could not export itself: a root at a node's path is
   * kept if and only if that node gives no root.
   */
  lemma ReplaceKeepsWhatIsNotExported(exporter: Exporter, regex: Rules.RegexMatcher, node: JcrNode, root: ForcedRoot)
    requires root.path == node.path
    ensures Retains(exporter, Some(Replace), regex, root) <==> NodeToRoot(exporter, regex, node).None?
  {
  }

  /** The renaming of a name into the exporter's namespace prefixes (`nsRemapName`). */
  type NameRemap = string -> string

  /** `nsRemapForcedRoot`: renames the path, the primary type and each mixin type. */
  function RemapRoot(remap: NameRemap, root: ForcedRoot): (r: ForcedRoot)
    ensures r.path == remap(root.path)
    ensures r.primaryType.Some? <==> root.primaryType.Some?
    ensures |r.mixinTypes| == |root.mixinTypes|
  {
    ForcedRoot(remap(root.path),
      if root.primaryType.Some? then Some(remap(root.primaryType.value)) else None,
      seq(|root.mixinTypes|, i requires 0 <= i < |root.mixinTypes| => remap(root.mixinTypes[i])))
  }

  /** The existing roots that survive: renamed, then filtered by the update policy, in checklist order. */
  function RetainedRoots(exporter: Exporter, policy: Option<ForcedRootUpdatePolicy>, regex: Rules.RegexMatcher,
                         remap: NameRemap, roots: seq<ForcedRoot>): (r: seq<ForcedRoot>)
    ensures |r| <= |roots|
    ensures forall x :: x in r ==> Retains(exporter, policy, regex, x)
  {
    if |roots| == 0 then []
    else
      var rest := RetainedRoots(exporter, policy, regex, remap, roots[..|roots| - 1]);
      var root := RemapRoot(remap, roots[|roots| - 1]);
      if Retains(exporter, policy, regex, root) then rest + [root] else rest
  }

  /** Under MERGE every existing root survives, renamed. */
  lemma {:induction false} MergeRetainsAll(exporter: Exporter, regex: Rules.RegexMatcher, remap: NameRemap,
                                           roots: seq<ForcedRoot>)
    ensures |RetainedRoots(exporter, Some(Merge), regex, remap, roots)| == |roots|
    ensures forall i :: 0 <= i < |roots| ==> RetainedRoots(exporter, Some(Merge), regex, remap, roots)[i] == RemapRoot(remap, roots[i])
  {
    if |roots| > 0 {
      MergeRetainsAll(exporter, regex, remap, roots[..|roots| - 1]);
    }
  }

  /** Under TRUNCATE no existing root survives. */
  lemma {:induction false} TruncateRetainsNone(exporter: Exporter, regex: Rules.RegexMatcher, remap: NameRemap,
                                               roots: seq<ForcedRoot>)
    ensures RetainedRoots(exporter, Some(Truncate), regex, remap, roots) == []
  {
    if |roots| > 0 {
      TruncateRetainsNone(exporter, regex, remap, roots[..|roots| - 1]);
    }
  }

  /** The retained roots of a checklist, none when there is no checklist. */
  function Retained(exporter: Exporter, policy: Option<ForcedRootUpdatePolicy>, regex: Rules.RegexMatcher,
                    remap: NameRemap, existing: Option<seq<ForcedRoot>>): seq<ForcedRoot>
  {
    if existing.Some? then RetainedRoots(exporter, policy, regex, remap, existing.value) else []
  }

  /**
   * The forced roots `updateChecklist` writes: the retained existing roots put into a path-keyed map, the new roots
   * put over them, and the map's roots sorted by path. They are sorted with one root per path, and each is a new
   * root or a retained one.
   */
  function UpdatedRoots(exporter: Exporter, policy: Option<ForcedRootUpdatePolicy>, regex: Rules.RegexMatcher,
                        remap: NameRemap, existing: Option<seq<ForcedRoot>>, newRoots: seq<ForcedRoot>)
    : (r: seq<ForcedRoot>)
    ensures SortedByPath(r) && UniquePaths(r)
    ensures forall x :: x in r ==> x in newRoots || x in Retained(exporter, policy, regex, remap, existing)
  {
    var retained := Retained(exporter, policy, regex, remap, existing);
    var merged := PutAll(PutAll([], retained), newRoots);
    PutAllUnique([], retained);
    PutAllUnique(PutAll([], retained), newRoots);
    SortKeepsUnique(merged);
    SortByPathMembers(merged);
    SortByPath(merged)
  }

  /** Sorting keeps the roots: every sorted root was in the list. */
  lemma SortByPathMembers(roots: seq<ForcedRoot>)
    ensures forall x :: x in SortByPath(roots) ==> x in roots
  {
    forall x | x in SortByPath(roots)
      ensures x in roots
    {
      assert x in multiset(SortByPath(roots));
    }
  }

  /**
   * The forced-root part of `updateChecklist`: the existing roots are renamed and filtered into a map keyed by
   * path, the new roots are put over them, and the map's roots are sorted.
   */
  method UpdateForcedRoots(exporter: Exporter, policy: Option<ForcedRootUpdatePolicy>, regex: Rules.RegexMatcher,
                           remap: NameRemap, existing: Option<seq<ForcedRoot>>, newRoots: seq<ForcedRoot>)
    returns (forcedRoots: seq<ForcedRoot>)
    ensures forcedRoots == UpdatedRoots(exporter, policy, regex, remap, existing, newRoots)
  {
    var kept: seq<ForcedRoot> := [];
    if existing.Some? {
      kept := KeepExisting(exporter, policy, regex, remap, existing.value);
    }
    kept := PutEach(kept, newRoots);
    forcedRoots := SortByPath(kept);
  }

  /** The existing roots, renamed and filtered, put one by one into an empty map. */
  method KeepExisting(exporter: Exporter, policy: Option<ForcedRootUpdatePolicy>, regex: Rules.RegexMatcher,
                      remap: NameRemap, roots: seq<ForcedRoot>)
    returns (kept: seq<ForcedRoot>)
    ensures kept == PutAll([], RetainedRoots(exporter, policy, regex, remap, roots))
  {
    kept := [];
    for i := 0 to |roots|
      invariant kept == PutAll([], RetainedRoots(exporter, policy, regex, remap, roots[..i]))
    {
      assert roots[..i + 1][..i] == roots[..i];
      var root := RemapRoot(remap, roots[i]);
      if Retains(exporter, policy, regex, root) {
        kept := Put(kept, root);
      }
    }
    assert roots[..|roots|] == roots;
  }

  /** Each root put over the map in order, so a later root with a path replaces an earlier one. */
  method PutEach(init: seq<ForcedRoot>, roots: seq<ForcedRoot>) returns (kept: seq<ForcedRoot>)
    ensures kept == PutAll(init, roots)
  {
    kept := init;
    for i := 0 to |roots|
      invariant kept == PutAll(init, roots[..i])
    {
      assert roots[..i + 1][..i] == roots[..i];
      kept := Put(kept, roots[i]);
    }
    assert roots[..|roots|] == roots;
  }

  /**
   * A path of the written roots takes the last new root with that path; only a path no new root has keeps the last
   * retained root with it.
   */
  lemma UpdatedRootsLookup(exporter: Exporter, policy: Option<ForcedRootUpdatePolicy>, regex: Rules.RegexMatcher,
                           remap: NameRemap, existing: Option<seq<ForcedRoot>>, newRoots: seq<ForcedRoot>,
                           path: string)
    ensures var retained := Retained(exporter, policy, regex, remap, existing);
      Lookup(UpdatedRoots(exporter, policy, regex, remap, existing, newRoots), path) ==
        (if LastWithPath(newRoots, path).Some? then LastWithPath(newRoots, path) else LastWithPath(retained, path))
  {
    var retained := Retained(exporter, policy, regex, remap, existing);
    var merged := PutAll(PutAll([], retained), newRoots);
    PutAllUnique([], retained);
    PutAllUnique(PutAll([], retained), newRoots);
    SortKeepsLookup(merged, path);
    PutAllLookup(PutAll([], retained), newRoots, path);
    PutAllLookup([], retained, path);
  }

  /**
   * Under REPLACE a kept root is never overwritten by a found root: every found root is in scope, so none shares
   * the path of a root REPLACE keeps.
   */
  lemma ReplaceProtectsKeptRoots(exporter: Exporter, regex: Rules.RegexMatcher, remap: NameRemap,
                                 existing: Option<seq<ForcedRoot>>, newRoots: seq<ForcedRoot>, kept: ForcedRoot)
    requires AllInScope(exporter, regex, newRoots)
    requires kept in Retained(exporter, Some(Replace), regex, remap, existing)
    ensures Lookup(UpdatedRoots(exporter, Some(Replace), regex, remap, existing, newRoots), kept.path) ==
      LastWithPath(Retained(exporter, Some(Replace), regex, remap, existing), kept.path)
  {
    UpdatedRootsLookup(exporter, Some(Replace), regex, remap, existing, newRoots, kept.path);
    assert Retains(exporter, Some(Replace), regex, kept);
  }

  // ---------------------------------------------------------------------------------------------------------------
  // The node type query statement and the type definition selector
  // ---------------------------------------------------------------------------------------------------------------

  /** The prefix that marks a node type name as "this type or any of its subtypes". */
  const CovariantPrefix: string := "+"

  predicate IsCovariant(name: string) {
    JavaString.StartsWith(name, CovariantPrefix)
  }

  /** The query for the nodes of a type or of any of its subtypes. */
  function SubtypeQuery(name: string): string {
    "SELECT [jcr:path] FROM [" + name + "] AS a"
  }

  /** The query for the nodes whose primary type or one of whose mixin types is exactly the named type. */
  function ExactTypeQuery(name: string): string {
    "SELECT [jcr:path] FROM [nt:base] AS a WHERE [a].[jcr:primaryType] = '" + name
      + "' UNION SELECT [jcr:path] FROM [nt:base] AS a WHERE [a].[jcr:mixinTypes] = '" + name + "'"
  }

  const UnionSeparator: string := " UNION "
  const StatementOptions: string := " OPTION(TRAVERSAL OK, INDEX NAME nodetype)"

  /** The types named with the covariant prefix that the repository knows, prefix removed, in list order. */
  function CovariantNames(names: seq<string>, hasNodeType: TypeOracle): (r: seq<string>)
    ensures |r| <= |names|
  {
    if |names| == 0 then []
    else
      var rest := CovariantNames(names[..|names| - 1], hasNodeType);
      var name := names[|names| - 1];
      if IsCovariant(name) && hasNodeType(name[|CovariantPrefix|..]) then rest + [name[|CovariantPrefix|..]] else rest
  }

  /** The types named without the covariant prefix that the repository knows, in list order. */
  function InvariantNames(names: seq<string>, hasNodeType: TypeOracle): (r: seq<string>)
    ensures |r| <= |names|
  {
    if |names| == 0 then []
    else
      var rest := InvariantNames(names[..|names| - 1], hasNodeType);
      var name := names[|names| - 1];
      if !IsCovariant(name) && hasNodeType(name) then rest + [name] else rest
  }

  /** A type is queried with its subtypes exactly when it is listed with the prefix and the repository knows it. */
  lemma {:induction false} CovariantNamesMembers(names: seq<string>, hasNodeType: TypeOracle, t: string)
    ensures t in CovariantNames(names, hasNodeType) <==> CovariantPrefix + t in names && hasNodeType(t)
  {
    if |names| > 0 {
      var init := names[..|names| - 1];
      var name := names[|names| - 1];
      CovariantNamesMembers(init, hasNodeType, t);
      assert names == init + [name];
      if IsCovariant(name) {
        assert name == CovariantPrefix + name[|CovariantPrefix|..];
      }
    }
  }

  /** A type is queried exactly when it is listed without the prefix and the repository knows it. */
  lemma {:induction false} InvariantNamesMembers(names: seq<string>, hasNodeType: TypeOracle, t: string)
    ensures t in InvariantNames(names, hasNodeType) <==> t in names && !IsCovariant(t) && hasNodeType(t)
  {
    if |names| > 0 {
      InvariantNamesMembers(names[..|names| - 1], hasNodeType, t);
      assert names == names[..|names| - 1] + [names[|names| - 1]];
    }
  }

  /** The subqueries of a node type statement: subtype queries first, then exact-type queries. */
  function Subqueries(names: seq<string>, hasNodeType: TypeOracle): seq<string> {
    var covariant := CovariantNames(names, hasNodeType);
    var exact := InvariantNames(names, hasNodeType);
    seq(|covariant|, i requires 0 <= i < |covariant| => SubtypeQuery(covariant[i]))
      + seq(|exact|, i requires 0 <= i < |exact| => ExactTypeQuery(exact[i]))
  }

  /** `String.join(separator, parts)`. */
  function JoinWith(separator: string, parts: seq<string>): string {
    if |parts| == 0 then ""
    else if |parts| == 1 then parts[0]
    else JoinWith(separator, parts[..|parts| - 1]) + separator + parts[|parts| - 1]
  }

  /** Joining two non-empty lists is joining each and putting the separator between them. */
  lemma {:induction false} JoinWithAppend(separator: string, a: seq<string>, b: seq<string>)
    requires |a| > 0 && |b| > 0
    ensures JoinWith(separator, a + b) == JoinWith(separator, a) + separator + JoinWith(separator, b)
  {
    if |b| == 1 {
      assert (a + b)[..|a + b| - 1] == a;
    } else {
      var init := b[..|b| - 1];
      JoinWithAppend(separator, a, init);
      assert (a + b)[..|a + b| - 1] == a + init;
    }
  }

  /** `ntStatement`: the union of the subqueries, with the traversal and index options. */
  function NtStatement(names: seq<string>, hasNodeType: TypeOracle): (r: string)
    ensures JavaString.EndsWith(r, StatementOptions)
  {
    JoinWith(UnionSeparator, Subqueries(names, hasNodeType)) + StatementOptions
  }

  /**
   * When both kinds of names are present, the statement is the union of the subtype queries, then the union of the
   * exact-type queries.
   */
  lemma CovariantQueriesFirst(names: seq<string>, hasNodeType: TypeOracle)
    requires |CovariantNames(names, hasNodeType)| > 0 && |InvariantNames(names, hasNodeType)| > 0
    ensures var covariant := CovariantNames(names, hasNodeType);
      var exact := InvariantNames(names, hasNodeType);
      NtStatement(names, hasNodeType) ==
        JoinWith(UnionSeparator, seq(|covariant|, i requires 0 <= i < |covariant| => SubtypeQuery(covariant[i])))
        + UnionSeparator
        + JoinWith(UnionSeparator, seq(|exact|, i requires 0 <= i < |exact| => ExactTypeQuery(exact[i])))
        + StatementOptions
  {
    var covariant := CovariantNames(names, hasNodeType);
    var exact := InvariantNames(names, hasNodeType);
    JoinWithAppend(UnionSeparator,
      seq(|covariant|, i requires 0 <= i < |covariant| => SubtypeQuery(covariant[i])),
      seq(|exact|, i requires 0 <= i < |exact| => ExactTypeQuery(exact[i])));
  }

  /**
   * `exportTypeDefSelector`: a type's definition is exported when its name passes the node type filters and it is
   * either listed without the prefix or has a supertype listed with it.
   */
  predicate ExportsTypeDef(exporter: Exporter, regex: Rules.RegexMatcher, name: string, supertypes: seq<string>) {
    var singleTypes := set d | d in exporter.exportTypeDefs && !IsCovariant(d);
    var superTypes := set d | d in exporter.exportTypeDefs && IsCovariant(d) :: d[|CovariantPrefix|..];
    TypeIncluded(exporter, regex, name)
      && (name in singleTypes || exists s :: s in supertypes && s in superTypes)
  }

  /**
   * The selector follows the prefix convention of the node type statement: a plain entry selects exactly the named
   * type, and an entry with the prefix selects the types that have the named type as a supertype.
   */
  lemma ExportsTypeDefByPrefix(exporter: Exporter, regex: Rules.RegexMatcher, name: string, supertypes: seq<string>)
    ensures ExportsTypeDef(exporter, regex, name, supertypes) <==>
      TypeIncluded(exporter, regex, name)
      && ((name in exporter.exportTypeDefs && !IsCovariant(name))
          || exists s :: s in supertypes && CovariantPrefix + s in exporter.exportTypeDefs)
  {
    var superTypes := set d | d in exporter.exportTypeDefs && IsCovariant(d) :: d[|CovariantPrefix|..];
    forall s
      ensures s in superTypes <==> CovariantPrefix + s in exporter.exportTypeDefs
    {
      if CovariantPrefix + s in exporter.exportTypeDefs {
        assert (CovariantPrefix + s)[|CovariantPrefix|..] == s;
      }
      if s in superTypes {
        var d :| d in exporter.exportTypeDefs && IsCovariant(d) && d[|CovariantPrefix|..] == s;
        assert d == CovariantPrefix + s;
      }
    }
  }
}
