/**
 * The names a content package uses and does not define: the privileges and node types its metadata defines
 * and references, by qualified name, the references minus the definitions being what the package needs from
 * the repository it is installed into. A docview handler tracks the XML prefix mappings in scope on a stack.
 */
module DocViewNames {
  import opened Wrappers
  import opened JavaResult
  import JavaString
  import QNames

  type NamespaceMapping = QNames.NamespaceMapping

  /** Every prefix maps to a URI that maps back to it, and every URI to a prefix that maps back to it. */
  ghost predicate Bijective(m: NamespaceMapping) {
    (forall p :: p in m.prefixToUri ==> m.prefixToUri[p] in m.uriToPrefix && m.uriToPrefix[m.prefixToUri[p]] == p) &&
    (forall u :: u in m.uriToPrefix ==> m.uriToPrefix[u] in m.prefixToUri && m.prefixToUri[m.uriToPrefix[u]] == u)
  }

  /** An empty mapping. */
  const EmptyMapping: NamespaceMapping := QNames.NamespaceMapping(map[], map[])

  /**
   * `NamespaceMapping.setMapping`: the prefix now maps to the URI and back, after dropping the URI's old prefix
   * and the prefix's old URI.
   */
  function SetMapping(m: NamespaceMapping, prefix: string, uri: string): (r: NamespaceMapping)
    ensures r.Uri(prefix) == Some(uri) && r.Prefix(uri) == Some(prefix)
    ensures Bijective(m) ==> Bijective(r)
    ensures Bijective(m) ==>
      forall q :: q != prefix && q in m.prefixToUri && m.prefixToUri[q] != uri ==> r.Uri(q) == m.Uri(q)
  {
    var p2u := if uri in m.uriToPrefix then m.prefixToUri - {m.uriToPrefix[uri]} else m.prefixToUri;
    var u2p := if uri in m.uriToPrefix then m.uriToPrefix - {uri} else m.uriToPrefix;
    var u2p' := if prefix in p2u then u2p - {p2u[prefix]} else u2p;
    var p2u' := if prefix in p2u then p2u - {prefix} else p2u;
    QNames.NamespaceMapping(p2u'[prefix := uri], u2p'[uri := prefix])
  }

  /** Mapping a prefix to the URI it maps to already changes nothing. */
  lemma SetMappingAgain(m: NamespaceMapping, prefix: string, uri: string)
    requires Bijective(m) && m.Prefix(uri) == Some(prefix)
    ensures SetMapping(m, prefix, uri) == m
  {
    var r := SetMapping(m, prefix, uri);
    assert r.prefixToUri == m.prefixToUri;
    assert r.uriToPrefix == m.uriToPrefix;
  }

  /** A prefix mapping in scope: `NsStack` without its link, the stack being a sequence, newest first. */
  datatype NsEntry = NsEntry(prefix: string, uri: string)

  /** The position of the first entry from `from` on with this prefix, or the length when there is none. */
  function FirstWith(stack: seq<NsEntry>, prefix: string, from: nat): (k: nat)
    requires from <= |stack|
    ensures from <= k <= |stack|
    ensures k < |stack| ==> stack[k].prefix == prefix
    ensures forall j :: from <= j < k ==> stack[j].prefix != prefix
    decreases |stack| - from
  {
    if from == |stack| || stack[from].prefix == prefix then from else FirstWith(stack, prefix, from + 1)
  }

  /**
   * `startPrefixMapping`: the entry pushed on the stack head; the mapping updated unless the URI maps to the
   * prefix already.
   */
  function StartPrefix(stack: seq<NsEntry>, mapping: NamespaceMapping, prefix: string, uri: string)
    : (seq<NsEntry>, NamespaceMapping)
  {
    ([NsEntry(prefix, uri)] + stack,
     if mapping.Prefix(uri) == Some(prefix) then mapping else SetMapping(mapping, prefix, uri))
  }

  /** After a start the prefix maps to the URI both ways, and the entry is the newest for its prefix. */
  lemma StartPrefixMaps(stack: seq<NsEntry>, mapping: NamespaceMapping, prefix: string, uri: string)
    requires Bijective(mapping)
    ensures var (stack', mapping') := StartPrefix(stack, mapping, prefix, uri);
      Bijective(mapping') && mapping' == SetMapping(mapping, prefix, uri) &&
      mapping'.Uri(prefix) == Some(uri) && mapping'.Prefix(uri) == Some(prefix) &&
      FirstWith(stack', prefix, 0) == 0 && stack'[0].uri == uri && stack'[1..] == stack
  {
    if mapping.Prefix(uri) == Some(prefix) {
      SetMappingAgain(mapping, prefix, uri);
    }
  }

  /** The error of an end for a prefix never started. */
  function NeverMapped(prefix: string): Exception {
    Exception("SAXException", "Illegal state: prefix " + prefix + " never mapped.")
  }

  /**
   * `endPrefixMapping`: the newest entry for the prefix removed from the stack, and the prefix mapped back to
   * the URI of the next older entry for it, when there is one; an error when no entry has the prefix.
   */
  function EndPrefix(stack: seq<NsEntry>, mapping: NamespaceMapping, prefix: string)
    : (r: Result<(seq<NsEntry>, NamespaceMapping)>)
    ensures r.Failure? <==> forall e :: e in stack ==> e.prefix != prefix
    ensures r.Failure? ==> r.error == NeverMapped(prefix)
    ensures r.Success? ==> |r.value.0| == |stack| - 1
  {
    var k := FirstWith(stack, prefix, 0);
    if k == |stack| then Failure(NeverMapped(prefix))
    else
      var rest := stack[..k] + stack[k + 1..];
      var older := FirstWith(rest, prefix, k);
      Success((rest, if older < |rest| then SetMapping(mapping, prefix, rest[older].uri) else mapping))
  }

  /**
   * Ending a prefix just started gives the stack back, maps the prefix to the URI of its next older entry when
   * it has one, and otherwise leaves it mapped to the URI of the ended entry.
   */
  lemma EndUndoesStart(stack: seq<NsEntry>, mapping: NamespaceMapping, prefix: string, uri: string)
    requires Bijective(mapping)
    ensures var (stack', mapping') := StartPrefix(stack, mapping, prefix, uri);
      var e := EndPrefix(stack', mapping', prefix);
      var older := FirstWith(stack, prefix, 0);
      e.Success? && e.value.0 == stack &&
      (older < |stack| ==> e.value.1.Uri(prefix) == Some(stack[older].uri)) &&
      (older == |stack| ==> e.value.1.Uri(prefix) == Some(uri))
  {
    StartPrefixMaps(stack, mapping, prefix, uri);
    var (stack', mapping') := StartPrefix(stack, mapping, prefix, uri);
    assert stack'[..0] + stack'[1..] == stack;
  }

  /** The docview handler: the mapping it resolves names with and the prefix mappings in scope. */
  class DocViewNameCheckHandler {
    var mapping: NamespaceMapping
    var nsStack: seq<NsEntry>

    ghost predicate Valid()
      reads this
    {
      Bijective(mapping)
    }

    constructor ()
      ensures Valid() && mapping == EmptyMapping && nsStack == []
    {
      mapping := EmptyMapping;
      nsStack := [];
    }

    /** `startPrefixMapping` */
    method StartPrefixMapping(prefix: string, uri: string)
      requires Valid()
      modifies this
      ensures Valid()
      ensures (nsStack, mapping) == StartPrefix(old(nsStack), old(mapping), prefix, uri)
    {
      nsStack := [NsEntry(prefix, uri)] + nsStack;
      var oldPrefix: string;
      var registered := mapping.Prefix(uri);
      if registered.None? {
        mapping := SetMapping(mapping, prefix, uri);
        oldPrefix := prefix;
      } else {
        oldPrefix := registered.value;
      }
      if prefix != oldPrefix {
        mapping := SetMapping(mapping, prefix, uri);
      }
    }

    /** `endPrefixMapping`: walks the stack for the prefix, unlinks it, then walks on for an older entry. */
    method EndPrefixMapping(prefix: string) returns (r: Result<()>)
      requires Valid()
      modifies this
      ensures Valid()
      ensures var e := EndPrefix(old(nsStack), old(mapping), prefix);
        (e.Failure? ==> r == Failure(e.error) && nsStack == old(nsStack) && mapping == old(mapping)) &&
        (e.Success? ==> r.Success? && (nsStack, mapping) == e.value)
    {
      var ns := 0;
      while ns < |nsStack| && nsStack[ns].prefix != prefix
        invariant ns <= |nsStack|
        invariant FirstWith(nsStack, prefix, ns) == FirstWith(nsStack, prefix, 0)
      {
        ns := ns + 1;
      }
      if ns == |nsStack| {
        return Failure(NeverMapped(prefix));
      }
      nsStack := nsStack[..ns] + nsStack[ns + 1..];
      ghost var k := ns;
      while ns < |nsStack| && nsStack[ns].prefix != prefix
        invariant k <= ns <= |nsStack|
        invariant FirstWith(nsStack, prefix, ns) == FirstWith(nsStack, prefix, k)
      {
        ns := ns + 1;
      }
      if ns < |nsStack| {
        mapping := SetMapping(mapping, prefix, nsStack[ns].uri);
      }
      r := Success(());
    }
  }

  datatype NameType = PrivilegeName | NodeTypeName

  /** `DocViewNameFinder.QName`: equal by type, local name and URI, whatever the prefix. */
  datatype QName = QName(nameType: NameType, prefix: string, localName: string, uri: string)

  predicate Same(a: QName, b: QName) {
    a.nameType == b.nameType && a.localName == b.localName && a.uri == b.uri
  }

  /** Membership in a `LinkedHashSet` of names. */
  predicate Contains(s: seq<QName>, q: QName) {
    exists x :: x in s && Same(x, q)
  }

  /** A `LinkedHashSet`: no two elements are equal. */
  predicate NoDuplicates(s: seq<QName>) {
    forall i, j :: 0 <= i < j < |s| ==> !Same(s[i], s[j])
  }

  /** Membership in a sequence is membership in all but its last element, or equality to that one. */
  lemma ContainsSnoc(qs: seq<QName>)
    requires |qs| > 0
    ensures forall x :: Contains(qs, x) <==> Contains(qs[..|qs| - 1], x) || Same(qs[|qs| - 1], x)
  {
    var init := qs[..|qs| - 1];
    var last := qs[|qs| - 1];
    assert qs == init + [last];
    forall x | Contains(qs, x) ensures Contains(init, x) || Same(last, x) {
      var y :| y in qs && Same(y, x);
      if y != last { assert y in init; }
    }
    forall x | Contains(init, x) ensures Contains(qs, x) {
      var y :| y in init && Same(y, x);
      assert y in qs;
    }
    assert last in qs;
  }

  /** `LinkedHashSet.add`: appended unless an equal name is present. */
  function SetAdd(s: seq<QName>, q: QName): (r: seq<QName>)
    ensures Contains(r, q) && |s| <= |r| <= |s| + 1 && r[..|s|] == s
    ensures forall x :: Contains(r, x) <==> Contains(s, x) || Same(q, x)
    ensures NoDuplicates(s) ==> NoDuplicates(r)
  {
    if Contains(s, q) then s
    else
      assert q in s + [q];
      assert forall x :: Contains(s + [q], x) ==> Contains(s, x) || Same(q, x) by {
        forall x | Contains(s + [q], x) ensures Contains(s, x) || Same(q, x) {
          var y :| y in s + [q] && Same(y, x);
          if y != q { assert y in s; }
        }
      }
      s + [q]
  }

  /** Adding names in order. */
  function SetAddAll(s: seq<QName>, qs: seq<QName>): (r: seq<QName>)
    ensures forall x :: Contains(r, x) <==> Contains(s, x) || Contains(qs, x)
    ensures NoDuplicates(s) ==> NoDuplicates(r)
    ensures |s| <= |r| && r[..|s|] == s
  {
    if |qs| == 0 then s
    else
      var init := qs[..|qs| - 1];
      var last := qs[|qs| - 1];
      var prev := SetAddAll(s, init);
      var r := SetAdd(prev, last);
      ContainsSnoc(qs);
      assert r[..|s|] == prev[..|prev|][..|s|];
      r
  }

  /**
   * `parseQName`: split at the first colon into prefix and local name when the mapping has the prefix; no name
   * without a colon or with an unknown prefix.
   */
  function ParseQName(mapping: NamespaceMapping, nameType: NameType, text: string): (r: Option<QName>)
    ensures r.Some? <==> ':' in text && mapping.Uri(JavaString.SplitFirst(text, ':')[0]).Some?
    ensures r.Some? ==>
      r.value.prefix + ":" + r.value.localName == text && ':' !in r.value.prefix &&
      mapping.Uri(r.value.prefix) == Some(r.value.uri) && r.value.nameType == nameType
  {
    if ':' in text then
      var parts := JavaString.SplitFirst(text, ':');
      var uri := mapping.Uri(parts[0]);
      if uri.Some? then Some(QName(nameType, parts[0], parts[1], uri.value)) else None
    else None
  }

  /** A JCR name: namespace URI and local name. */
  datatype SpiName = SpiName(namespaceUri: string, localName: string)

  /** `adaptName`: the name with the mapping's prefix for its URI; none (the exception) when it has none. */
  function AdaptName(mapping: NamespaceMapping, nameType: NameType, name: SpiName): (r: Option<QName>)
    ensures r.Some? <==> mapping.Prefix(name.namespaceUri).Some?
    ensures r.Some? ==>
      r.value.uri == name.namespaceUri && r.value.localName == name.localName && r.value.nameType == nameType &&
      Some(r.value.prefix) == mapping.Prefix(name.namespaceUri)
  {
    match mapping.Prefix(name.namespaceUri)
    case None => None
    case Some(prefix) => Some(QName(nameType, prefix, name.localName, name.namespaceUri))
  }

  /** Names adapted in order, those without a prefix dropped: `tryOrDefault(..., null)` then `filter(nonNull)`. */
  function AdaptAll(mapping: NamespaceMapping, nameType: NameType, names: seq<SpiName>): (r: seq<QName>)
    ensures forall q :: q in r ==> exists n :: n in names && AdaptName(mapping, nameType, n) == Some(q)
    ensures forall n :: n in names && AdaptName(mapping, nameType, n).Some? ==>
      AdaptName(mapping, nameType, n).value in r
  {
    if |names| == 0 then []
    else
      var init := names[..|names| - 1];
      var last := names[|names| - 1];
      var a := AdaptName(mapping, nameType, last);
      assert names == init + [last];
      AdaptAll(mapping, nameType, init) + (if a.Some? then [a.value] else [])
  }

  datatype PrivilegeDefinition = PrivilegeDefinition(name: SpiName, declaredAggregateNames: seq<SpiName>)
  datatype NodeTypeDefinition = NodeTypeDefinition(name: SpiName, dependencies: seq<SpiName>)

  /** A set of node type definitions read with one namespace mapping, as the `getNodeTypes().values()` order. */
  datatype NodeTypeSet = NodeTypeSet(mapping: NamespaceMapping, nodeTypes: seq<NodeTypeDefinition>)

  /** The names referenced and defined so far. */
  datatype Names = Names(references: seq<QName>, definitions: seq<QName>)

  /**
   * `collectPrivilegeDefinition`: the privilege is defined and its aggregates referenced; when its own name
   * cannot be adapted nothing is collected, the exception being swallowed before the aggregates.
   */
  function CollectPrivilege(n: Names, mapping: NamespaceMapping, def: PrivilegeDefinition): (r: Names)
    ensures AdaptName(mapping, PrivilegeName, def.name).None? ==> r == n
    ensures AdaptName(mapping, PrivilegeName, def.name).Some? ==>
      r.definitions == SetAdd(n.definitions, AdaptName(mapping, PrivilegeName, def.name).value) &&
      forall a :: a in def.declaredAggregateNames && AdaptName(mapping, PrivilegeName, a).Some? ==>
        Contains(r.references, AdaptName(mapping, PrivilegeName, a).value)
    ensures forall q :: Contains(n.references, q) ==> Contains(r.references, q)
  {
    match AdaptName(mapping, PrivilegeName, def.name)
    case None => n
    case Some(q) =>
      var aggregates := AdaptAll(mapping, PrivilegeName, def.declaredAggregateNames);
      assert forall a :: a in def.declaredAggregateNames && AdaptName(mapping, PrivilegeName, a).Some? ==>
        Contains(aggregates, AdaptName(mapping, PrivilegeName, a).value);
      Names(SetAddAll(n.references, aggregates), SetAdd(n.definitions, q))
  }

  /**
   * The references `collectNodeTypeNames` collects as written: its transform ignores the dependency it is given
   * and adapts the definition's own name, once per dependency.
   */
  function DependencyNamesAsWritten(mapping: NamespaceMapping, name: SpiName, dependencies: seq<SpiName>)
    : (r: seq<QName>)
    ensures forall q :: q in r ==> Some(q) == AdaptName(mapping, NodeTypeName, name)
  {
    if |dependencies| == 0 then []
    else
      var self := AdaptName(mapping, NodeTypeName, name);
      DependencyNamesAsWritten(mapping, name, dependencies[..|dependencies| - 1]) +
        (if self.Some? then [self.value] else [])
  }

  /** `collectNodeTypeNames` as written. */
  function CollectNodeTypeAsWritten(n: Names, mapping: NamespaceMapping, def: NodeTypeDefinition): Names {
    var self := AdaptName(mapping, NodeTypeName, def.name);
    Names(SetAddAll(n.references, DependencyNamesAsWritten(mapping, def.name, def.dependencies)),
          if self.Some? then SetAdd(n.definitions, self.value) else n.definitions)
  }

  /**
   * As written, no reference collected from a node type survives the subtraction: each is the node type's own
   * name, which is collected as a definition too.
   */
  lemma NodeTypeReferencesCancelledAsWritten(n: Names, mapping: NamespaceMapping, def: NodeTypeDefinition)
    ensures var r := CollectNodeTypeAsWritten(n, mapping, def);
      forall q :: Contains(r.references, q) && !Contains(n.references, q) ==> Contains(r.definitions, q)
  {
    var r := CollectNodeTypeAsWritten(n, mapping, def);
    forall q | Contains(r.references, q) && !Contains(n.references, q)
      ensures Contains(r.definitions, q)
    {
      var y :| y in DependencyNamesAsWritten(mapping, def.name, def.dependencies) && Same(y, q);
    }
  }

  /** The example of the finding: a mapping that knows `nt` and `my`, and `my:folder` depending on `nt:base`. */
  const ExampleMapping := QNames.NamespaceMapping(map["nt" := "urn:nt", "my" := "urn:my"],
                                                  map["urn:nt" := "nt", "urn:my" := "my"])
  const ExampleDef := NodeTypeDefinition(SpiName("urn:my", "folder"), [SpiName("urn:nt", "base")])
  const NtBase := QName(NodeTypeName, "nt", "base", "urn:nt")

  /** A node type depending on `nt:base` in a mapping that knows `nt`, whose dependency is never referenced. */
  lemma DependencyLostAsWritten()
    ensures !Contains(CollectNodeTypeAsWritten(Names([], []), ExampleMapping, ExampleDef).references, NtBase)
    ensures Contains(CollectNodeType(Names([], []), ExampleMapping, ExampleDef).references, NtBase)
  {
    AsWrittenMissesBase();
    CorrectedKeepsBase();
  }

  lemma AsWrittenMissesBase()
    ensures !Contains(CollectNodeTypeAsWritten(Names([], []), ExampleMapping, ExampleDef).references, NtBase)
  {
    var folder := QName(NodeTypeName, "my", "folder", "urn:my");
    assert AdaptName(ExampleMapping, NodeTypeName, ExampleDef.name) == Some(folder);
    assert DependencyNamesAsWritten(ExampleMapping, ExampleDef.name, ExampleDef.dependencies) == [folder] by {
      assert ExampleDef.dependencies[..0] == [];
    }
    assert !Same(folder, NtBase);
  }

  lemma CorrectedKeepsBase()
    ensures Contains(CollectNodeType(Names([], []), ExampleMapping, ExampleDef).references, NtBase)
  {
    assert SpiName("urn:nt", "base") in ExampleDef.dependencies;
    assert AdaptName(ExampleMapping, NodeTypeName, SpiName("urn:nt", "base")) == Some(NtBase);
  }

  /** A name equal to the adapted form of one of some dependencies. */
  predicate AdaptedFrom(mapping: NamespaceMapping, dependencies: seq<SpiName>, q: QName) {
    exists d :: d in dependencies && AdaptName(mapping, NodeTypeName, d).Some? &&
      Same(AdaptName(mapping, NodeTypeName, d).value, q)
  }

  /** `collectNodeTypeNames` with each dependency adapted itself: the node type defined, its dependencies referenced. */
  function CollectNodeType(n: Names, mapping: NamespaceMapping, def: NodeTypeDefinition): (r: Names)
    ensures AdaptName(mapping, NodeTypeName, def.name).Some? ==>
      r.definitions == SetAdd(n.definitions, AdaptName(mapping, NodeTypeName, def.name).value)
    ensures AdaptName(mapping, NodeTypeName, def.name).None? ==> r.definitions == n.definitions
    ensures forall d :: d in def.dependencies && AdaptName(mapping, NodeTypeName, d).Some? ==>
      Contains(r.references, AdaptName(mapping, NodeTypeName, d).value)
    ensures forall q :: Contains(r.references, q) ==> Contains(n.references, q) || AdaptedFrom(mapping, def.dependencies, q)
    ensures forall q :: Contains(n.references, q) ==> Contains(r.references, q)
  {
    var self := AdaptName(mapping, NodeTypeName, def.name);
    var deps := AdaptAll(mapping, NodeTypeName, def.dependencies);
    assert forall d :: d in def.dependencies && AdaptName(mapping, NodeTypeName, d).Some? ==>
      Contains(deps, AdaptName(mapping, NodeTypeName, d).value);
    var r := Names(SetAddAll(n.references, deps), if self.Some? then SetAdd(n.definitions, self.value) else n.definitions);
    assert forall q :: Contains(r.references, q) ==> Contains(n.references, q) || AdaptedFrom(mapping, def.dependencies, q) by {
      forall q | Contains(r.references, q) && !Contains(n.references, q)
        ensures AdaptedFrom(mapping, def.dependencies, q)
      {
        var y :| y in deps && Same(y, q);
        var d :| d in def.dependencies && AdaptName(mapping, NodeTypeName, d) == Some(y);
      }
    }
    r
  }

  /** Privilege definitions collected in order. */
  function CollectPrivileges(n: Names, mapping: NamespaceMapping, defs: seq<PrivilegeDefinition>): Names {
    if |defs| == 0 then n
    else CollectPrivilege(CollectPrivileges(n, mapping, defs[..|defs| - 1]), mapping, defs[|defs| - 1])
  }

  /** Node type definitions collected in order, read with one mapping. */
  function CollectNodeTypes(n: Names, mapping: NamespaceMapping, defs: seq<NodeTypeDefinition>): Names {
    if |defs| == 0 then n
    else CollectNodeType(CollectNodeTypes(n, mapping, defs[..|defs| - 1]), mapping, defs[|defs| - 1])
  }

  /** The node type sets collected in order, each with its own mapping. */
  function CollectSets(n: Names, sets: seq<NodeTypeSet>): Names {
    if |sets| == 0 then n
    else
      var last := sets[|sets| - 1];
      CollectNodeTypes(CollectSets(n, sets[..|sets| - 1]), last.mapping, last.nodeTypes)
  }

  /**
   * The names `search` has collected: the privileges, when there are any, then the node type sets of the
   * metadata, then those of the CND files.
   */
  function Searched(n: Names, privileges: Option<PrivilegeDefinitions>, nodeTypeSets: seq<NodeTypeSet>,
                    cndSets: seq<NodeTypeSet>): Names {
    var collected :=
      if privileges.Some? && |privileges.value.definitions| > 0
      then CollectPrivileges(n, privileges.value.mapping, privileges.value.definitions)
      else n;
    CollectSets(collected, nodeTypeSets + cndSets)
  }

  /** Names already collected stay collected. */
  ghost predicate Grows(before: Names, after: Names) {
    (forall q :: Contains(before.definitions, q) ==> Contains(after.definitions, q)) &&
    (forall q :: Contains(before.references, q) ==> Contains(after.references, q))
  }

  /** Collecting privileges keeps what was collected and defines every privilege whose name adapts. */
  lemma {:induction false} CollectPrivilegesDefines(n: Names, mapping: NamespaceMapping, defs: seq<PrivilegeDefinition>)
    ensures Grows(n, CollectPrivileges(n, mapping, defs))
    ensures forall d :: d in defs && AdaptName(mapping, PrivilegeName, d.name).Some? ==>
      Contains(CollectPrivileges(n, mapping, defs).definitions, AdaptName(mapping, PrivilegeName, d.name).value)
  {
    if |defs| > 0 {
      var init := defs[..|defs| - 1];
      CollectPrivilegesDefines(n, mapping, init);
      assert defs == init + [defs[|defs| - 1]];
    }
  }

  /**
   * Collecting node types keeps what was collected, defines every node type whose name adapts and references
   * every dependency that adapts.
   */
  lemma {:induction false} CollectNodeTypesDefines(n: Names, mapping: NamespaceMapping, defs: seq<NodeTypeDefinition>)
    ensures Grows(n, CollectNodeTypes(n, mapping, defs))
    ensures forall d :: d in defs && AdaptName(mapping, NodeTypeName, d.name).Some? ==>
      Contains(CollectNodeTypes(n, mapping, defs).definitions, AdaptName(mapping, NodeTypeName, d.name).value)
    ensures forall d, x :: d in defs && x in d.dependencies && AdaptName(mapping, NodeTypeName, x).Some? ==>
      Contains(CollectNodeTypes(n, mapping, defs).references, AdaptName(mapping, NodeTypeName, x).value)
  {
    if |defs| > 0 {
      var init := defs[..|defs| - 1];
      CollectNodeTypesDefines(n, mapping, init);
      assert defs == init + [defs[|defs| - 1]];
    }
  }

  /** Collecting node type sets keeps what was collected and defines every node type of every set that adapts. */
  lemma {:induction false} CollectSetsDefines(n: Names, sets: seq<NodeTypeSet>)
    ensures Grows(n, CollectSets(n, sets))
    ensures forall i, d :: 0 <= i < |sets| && d in sets[i].nodeTypes &&
                           AdaptName(sets[i].mapping, NodeTypeName, d.name).Some? ==>
      Contains(CollectSets(n, sets).definitions, AdaptName(sets[i].mapping, NodeTypeName, d.name).value)
  {
    if |sets| > 0 {
      var init := sets[..|sets| - 1];
      var last := sets[|sets| - 1];
      CollectSetsDefines(n, init);
      CollectNodeTypesDefines(CollectSets(n, init), last.mapping, last.nodeTypes);
    }
  }

  /**
   * After `search` has collected, every privilege (when the metadata lists any) and every node type of the
   * metadata and the CND files whose name adapts is defined, and nothing collected before is lost.
   */
  lemma SearchedDefines(n: Names, privileges: Option<PrivilegeDefinitions>, nodeTypeSets: seq<NodeTypeSet>,
                        cndSets: seq<NodeTypeSet>)
    ensures Grows(n, Searched(n, privileges, nodeTypeSets, cndSets))
    ensures privileges.Some? ==>
      forall d :: d in privileges.value.definitions && AdaptName(privileges.value.mapping, PrivilegeName, d.name).Some? ==>
        Contains(Searched(n, privileges, nodeTypeSets, cndSets).definitions,
                 AdaptName(privileges.value.mapping, PrivilegeName, d.name).value)
    ensures forall i, d :: 0 <= i < |nodeTypeSets + cndSets| && d in (nodeTypeSets + cndSets)[i].nodeTypes &&
                           AdaptName((nodeTypeSets + cndSets)[i].mapping, NodeTypeName, d.name).Some? ==>
      Contains(Searched(n, privileges, nodeTypeSets, cndSets).definitions,
               AdaptName((nodeTypeSets + cndSets)[i].mapping, NodeTypeName, d.name).value)
  {
    var collected := n;
    if privileges.Some? && |privileges.value.definitions| > 0 {
      collected := CollectPrivileges(n, privileges.value.mapping, privileges.value.definitions);
      CollectPrivilegesDefines(n, privileges.value.mapping, privileges.value.definitions);
    }
    CollectSetsDefines(collected, nodeTypeSets + cndSets);
  }

  /** The references not defined, in order: `references` filtered by `definitions::contains` negated. */
  function Subtract(references: seq<QName>, definitions: seq<QName>): (r: seq<QName>)
    ensures forall q :: q in r ==> q in references && !Contains(definitions, q)
    ensures |r| <= |references|
  {
    if |references| == 0 then []
    else
      var last := references[|references| - 1];
      Subtract(references[..|references| - 1], definitions) + (if Contains(definitions, last) then [] else [last])
  }

  /** Every reference not defined is kept and every kept one is a reference not defined; no name twice. */
  lemma {:induction false} SubtractProperties(references: seq<QName>, definitions: seq<QName>)
    requires NoDuplicates(references)
    ensures var r := Subtract(references, definitions);
      NoDuplicates(r) && forall q :: q in references && !Contains(definitions, q) ==> q in r
  {
    if |references| > 0 {
      var init := references[..|references| - 1];
      var last := references[|references| - 1];
      assert references == init + [last];
      SubtractProperties(init, definitions);
      var r := Subtract(references, definitions);
      var before := Subtract(init, definitions);
      forall i | 0 <= i < |before| ensures !Same(before[i], last) {
        assert before[i] in init;
        var j :| 0 <= j < |init| && init[j] == before[i];
        assert references[j] == before[i];
      }
    }
  }

  /** The privilege definitions of a package's metadata and the namespace mapping they were read with. */
  datatype PrivilegeDefinitions = PrivilegeDefinitions(mapping: NamespaceMapping, definitions: seq<PrivilegeDefinition>)

  /** `DocViewNameFinder`: the names referenced and defined, each an insertion-ordered set. */
  class DocViewNameFinder {
    var references: seq<QName>
    var definitions: seq<QName>

    ghost predicate Valid()
      reads this
    {
      NoDuplicates(references) && NoDuplicates(definitions)
    }

    constructor ()
      ensures Valid() && references == [] && definitions == []
    {
      references := [];
      definitions := [];
    }

    /** `loadBuiltins`: the built-in privilege and node type names that parse with the built-in mappings, defined. */
    method LoadBuiltins(builtinPrivileges: seq<string>, builtinNodeTypes: seq<string>)
      requires Valid()
      modifies this
      ensures Valid() && references == old(references)
      ensures forall t :: t in builtinPrivileges && ParseQName(QNames.BuiltinMappings, PrivilegeName, t).Some? ==>
        Contains(definitions, ParseQName(QNames.BuiltinMappings, PrivilegeName, t).value)
      ensures forall t :: t in builtinNodeTypes && ParseQName(QNames.BuiltinMappings, NodeTypeName, t).Some? ==>
        Contains(definitions, ParseQName(QNames.BuiltinMappings, NodeTypeName, t).value)
      ensures forall q :: Contains(definitions, q) ==>
        Contains(old(definitions), q) || ParsedFrom(builtinPrivileges, PrivilegeName, q) ||
        ParsedFrom(builtinNodeTypes, NodeTypeName, q)
    {
      ghost var start := definitions;
      for i := 0 to |builtinPrivileges|
        invariant NoDuplicates(definitions)
        invariant forall t :: t in builtinPrivileges[..i] && ParseQName(QNames.BuiltinMappings, PrivilegeName, t).Some? ==>
          Contains(definitions, ParseQName(QNames.BuiltinMappings, PrivilegeName, t).value)
        invariant references == old(references)
        invariant forall q :: Contains(definitions, q) ==> Contains(start, q) || ParsedFrom(builtinPrivileges, PrivilegeName, q)
        invariant forall q :: Contains(start, q) ==> Contains(definitions, q)
      {
        assert builtinPrivileges[..i + 1] == builtinPrivileges[..i] + [builtinPrivileges[i]];
        var parsed := ParseQName(QNames.BuiltinMappings, PrivilegeName, builtinPrivileges[i]);
        if parsed.Some? {
          AddKeeps(definitions, parsed.value, start, builtinPrivileges, PrivilegeName, builtinPrivileges[i]);
          definitions := SetAdd(definitions, parsed.value);
        }
      }
      assert builtinPrivileges[..|builtinPrivileges|] == builtinPrivileges;
      ghost var middle := definitions;
      for i := 0 to |builtinNodeTypes|
        invariant NoDuplicates(definitions)
        invariant forall t :: t in builtinNodeTypes[..i] && ParseQName(QNames.BuiltinMappings, NodeTypeName, t).Some? ==>
          Contains(definitions, ParseQName(QNames.BuiltinMappings, NodeTypeName, t).value)
        invariant references == old(references)
        invariant forall q :: Contains(definitions, q) ==> Contains(middle, q) || ParsedFrom(builtinNodeTypes, NodeTypeName, q)
        invariant forall q :: Contains(middle, q) ==> Contains(definitions, q)
      {
        assert builtinNodeTypes[..i + 1] == builtinNodeTypes[..i] + [builtinNodeTypes[i]];
        var parsed := ParseQName(QNames.BuiltinMappings, NodeTypeName, builtinNodeTypes[i]);
        if parsed.Some? {
          AddKeeps(definitions, parsed.value, middle, builtinNodeTypes, NodeTypeName, builtinNodeTypes[i]);
          definitions := SetAdd(definitions, parsed.value);
        }
      }
      assert builtinNodeTypes[..|builtinNodeTypes|] == builtinNodeTypes;
    }

    /** `collectPrivilegeDefinition` */
    method CollectPrivilegeDefinition(mapping: NamespaceMapping, def: PrivilegeDefinition)
      requires Valid()
      modifies this
      ensures Valid()
      ensures Names(references, definitions) == CollectPrivilege(Names(old(references), old(definitions)), mapping, def)
    {
      var defName := AdaptName(mapping, PrivilegeName, def.name);
      if defName.None? {
        return;
      }
      definitions := SetAdd(definitions, defName.value);
      references := SetAddAll(references, AdaptAll(mapping, PrivilegeName, def.declaredAggregateNames));
    }

    /** `collectNodeTypeNames`, each dependency adapted itself. */
    method CollectNodeTypeNames(mapping: NamespaceMapping, def: NodeTypeDefinition)
      requires Valid()
      modifies this
      ensures Valid()
      ensures Names(references, definitions) == CollectNodeType(Names(old(references), old(definitions)), mapping, def)
    {
      var qname := AdaptName(mapping, NodeTypeName, def.name);
      if qname.Some? {
        definitions := SetAdd(definitions, qname.value);
      }
      references := SetAddAll(references, AdaptAll(mapping, NodeTypeName, def.dependencies));
    }

    /** `collectPrivilegeDefinition` for each definition, in order. */
    method CollectPrivilegeDefinitions(mapping: NamespaceMapping, defs: seq<PrivilegeDefinition>)
      requires Valid()
      modifies this
      ensures Valid()
      ensures Names(references, definitions) == CollectPrivileges(Names(old(references), old(definitions)), mapping, defs)
    {
      ghost var start := Names(references, definitions);
      for i := 0 to |defs|
        invariant Valid()
        invariant Names(references, definitions) == CollectPrivileges(start, mapping, defs[..i])
      {
        assert defs[..i + 1][..i] == defs[..i];
        CollectPrivilegeDefinition(mapping, defs[i]);
      }
      assert defs[..|defs|] == defs;
    }

    /** `collectNodeTypeNames` for each node type of a set, in order, with the set's mapping. */
    method CollectNodeTypeSet(nodeTypeSet: NodeTypeSet)
      requires Valid()
      modifies this
      ensures Valid()
      ensures Names(references, definitions) ==
        CollectNodeTypes(Names(old(references), old(definitions)), nodeTypeSet.mapping, nodeTypeSet.nodeTypes)
    {
      ghost var start := Names(references, definitions);
      var defs := nodeTypeSet.nodeTypes;
      for j := 0 to |defs|
        invariant Valid()
        invariant Names(references, definitions) == CollectNodeTypes(start, nodeTypeSet.mapping, defs[..j])
      {
        assert defs[..j + 1][..j] == defs[..j];
        CollectNodeTypeNames(nodeTypeSet.mapping, defs[j]);
      }
      assert defs[..|defs|] == defs;
    }

    /**
     * `search(archive)`: the privileges (when there are any) and the node type sets of the metadata, then those
     * of the CND files under the content root, collected; the result is the references not defined, in order.
     */
    method Search(privileges: Option<PrivilegeDefinitions>, nodeTypeSets: seq<NodeTypeSet>, cndSets: seq<NodeTypeSet>)
      returns (subtracted: seq<QName>)
      requires Valid()
      modifies this
      ensures Valid()
      ensures Names(references, definitions) ==
        Searched(Names(old(references), old(definitions)), privileges, nodeTypeSets, cndSets)
      ensures subtracted == Subtract(references, definitions)
      ensures forall q :: q in references && !Contains(definitions, q) ==> q in subtracted
    {
      if privileges.Some? && |privileges.value.definitions| > 0 {
        CollectPrivilegeDefinitions(privileges.value.mapping, privileges.value.definitions);
      }
      ghost var collected := Names(references, definitions);
      var sets := nodeTypeSets + cndSets;
      for i := 0 to |sets|
        invariant Valid()
        invariant Names(references, definitions) == CollectSets(collected, sets[..i])
      {
        CollectNodeTypeSet(sets[i]);
        assert sets[..i + 1][..i] == sets[..i];
      }
      assert sets[..|sets|] == sets;
      subtracted := Undefined();
    }

    /** The references not defined, in order, as `search` gathers them into a new set. */
    method Undefined() returns (subtracted: seq<QName>)
      requires Valid()
      ensures subtracted == Subtract(references, definitions)
      ensures NoDuplicates(subtracted)
      ensures forall q :: q in references && !Contains(definitions, q) ==> q in subtracted
    {
      subtracted := [];
      for i := 0 to |references|
        invariant subtracted == Subtract(references[..i], definitions)
      {
        assert references[..i + 1][..i] == references[..i];
        if !Contains(definitions, references[i]) {
          subtracted := subtracted + [references[i]];
        }
      }
      assert references[..|references|] == references;
      SubtractProperties(references, definitions);
    }
  }

  /** A name equal to one of some texts parsed with the built-in mappings. */
  predicate ParsedFrom(names: seq<string>, nameType: NameType, q: QName) {
    exists t :: t in names && ParseQName(QNames.BuiltinMappings, nameType, t).Some? &&
      Same(ParseQName(QNames.BuiltinMappings, nameType, t).value, q)
  }

  /** Adding a parsed built-in keeps the loop's account of where each definition came from. */
  lemma AddKeeps(defs: seq<QName>, q: QName, start: seq<QName>, names: seq<string>, nameType: NameType, t: string)
    requires t in names && ParseQName(QNames.BuiltinMappings, nameType, t) == Some(q)
    requires forall x :: Contains(defs, x) ==> Contains(start, x) || ParsedFrom(names, nameType, x)
    ensures forall x :: Contains(SetAdd(defs, q), x) ==> Contains(start, x) || ParsedFrom(names, nameType, x)
  {
  }
}
