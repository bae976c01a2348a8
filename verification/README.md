# oakpal core, modelled in Dafny

oakpal checks JCR content packages before they reach a real repository. It scans one or more packages into a
throwaway Oak repository, and while it does so it tells a list of *progress checks* about every package it
identifies, every subpackage it opens and every path it imports or deletes. The checks report graded
*violations* (MINOR, MAJOR, SEVERE). Checks come from *checklists*, JSON documents bundled in a jar or an *opear*
file. A *planner* selects the checklists, applies per-check overrides and installs the node types, namespaces and
privileges that the checklists require. The CLI reads its options and runs a scan. The webster tools export the
nodes of a live repository back into a checklist as forced roots.

This project models that core in Dafny, one module per source file:

- `oakmachine.dfy` models the scan engine: the order of package, subpackage and path events, and which check failures are reported.
- `packagegraph.dfy` models the package graph of parents, subpackages and embedded packages. `slingsim.dfy` models the Sling installable simulator.
- `violators.dfy`, `expectpaths.dfy`, `expectaces.dfy`, `achandling.dfy`, `compositestore.dfy` and `jcrproperty.dfy` model the built-in checks.
- `checkspec.dfy`, `checklist.dfy` and `planner.dfy` model check specs, checklists and the planner.
- `opearfile.dfy`, `destfilenames.dfy` and `slingnodetypes.dfy` model opear files and the node type definitions found in jars.
- `cndinstaller.dfy` models the CND installer.
- `command.dfy` models the CLI argument parser and its exit codes. `reportmapper.dfy` models the report JSON.
- `qname.dfy`, `jsoncnd.dfy`, `namespacerequest.dfy`, `docviewnames.dfy` and `checklistexporter.dfy` model the webster exporters.
- `strings.dfy`, `seqs.dfy`, `rules.dfy`, `result.dfy` and `javaxjson.dfy` hold the shared helpers. These are Java string operations, include/exclude rules, `Result` and JSON values.

Each operation is given in one of two forms:

- Where the source changes an object's fields step by step, the operation is a class method that is proved against a specification function.
- Where the source only computes a value, the operation is a function.

Lemmas then state what the source promises about each operation. Examples are round trips, the order of events, uniqueness of keys and the effect of each update policy.

Anything the code cannot compute itself becomes a parameter. This covers the repository, the session, regular expressions, class loaders and parsers.

## Model

| member | source | states |
|---|---|---|
| AcHandling.ModeOf | core/src/main/java/net/adamcin/oakpal/core/checks/AcHandling.java:79-80 | the mode found has exactly the name asked for |
| AcHandling.ModeOfName | core/src/main/java/net/adamcin/oakpal/core/checks/AcHandling.java:79-80 | every mode is found by its own name and by no other |
| AcHandling.LevelSetOf | core/src/main/java/net/adamcin/oakpal/core/checks/AcHandling.java:83-84 | the level set found has exactly the name asked for |
| AcHandling.LevelSetOfName | core/src/main/java/net/adamcin/oakpal/core/checks/AcHandling.java:83-84 | every level set is found by its own name |
| AcHandling.AllowedModes | core/src/main/java/net/adamcin/oakpal/core/checks/AcHandling.java:93-130 | no level set allows CLEAR, and every level set but EXPLICIT allows IGNORE |
| AcHandling.LevelSetsNested | core/src/main/java/net/adamcin/oakpal/core/checks/AcHandling.java:93-130 | ONLY_IGNORE, ONLY_ADD, NO_UNSAFE and NO_CLEAR allow ever more modes, each step adding one, and NO_CLEAR forbids CLEAR alone |
| AcHandling.ModesOf | core/src/main/java/net/adamcin/oakpal/core/checks/AcHandling.java:79-80 | a name that is no mode fails with IllegalArgumentException |
| AcHandling.ModesOfProperties | core/src/main/java/net/adamcin/oakpal/core/checks/AcHandling.java:79-80 | the allowed modes are read exactly when every string, upper-cased as ASCII, names a mode, giving those modes in order; otherwise some string names none |
| AcHandling.NewInstance | core/src/main/java/net/adamcin/oakpal/core/checks/AcHandling.java:77-88 | a non-null allowedModes makes the check explicit with the named modes; otherwise a non-null levelSet names the level set in any ASCII case; otherwise NO_UNSAFE; an unknown name fails |
| AcHandling.IgnoreAllowed | core/src/main/java/net/adamcin/oakpal/core/checks/AcHandling.java:153 | a package declaring no mode counts as IGNORE, which every non-explicit level set allows |
| AcHandling.Check.constructor | core/src/main/java/net/adamcin/oakpal/core/checks/AcHandling.java:136-141 | the check holds the level set and modes given and has reported nothing |
| AcHandling.Check.Verdict | core/src/main/java/net/adamcin/oakpal/core/checks/AcHandling.java:148-170 | at most one violation, reported exactly when a level set is configured and the package's mode is not allowed; it is MAJOR and names the package |
| AcHandling.Check.BeforeExtract | core/src/main/java/net/adamcin/oakpal/core/checks/AcHandling.java:148-170 | the violations grow by exactly the verdict for the package |
| AcHandling.NarrowerReportsMore | core/src/main/java/net/adamcin/oakpal/core/checks/AcHandling.java:93-130 | a package forbidden under a wider level set is forbidden under every narrower one |
| Checklists.KeyIndex | core/src/main/java/net/adamcin/oakpal/core/Checklist.java:147-148 | the position of a key in the canonical key order, -1 exactly for keys outside it |
| Checklists.CompareKeys | core/src/main/java/net/adamcin/oakpal/core/Checklist.java:145-156 | known keys compare by canonical position, known keys sort before unknown ones, unknown keys compare as Java strings, and only equal keys compare equal |
| Checklists.CompareKeysOrder | core/src/main/java/net/adamcin/oakpal/core/Checklist.java:145-156 | the key comparator is antisymmetric and transitive, so it is a valid sort order |
| Checklists.GetCheckPrefix | core/src/main/java/net/adamcin/oakpal/core/Checklist.java:329-339 | the prefix is empty or ends in "/"; it is the module prefix alone when the checklist name is empty or repeats the module name, else the module prefix, the checklist name and "/" |
| Checklists.Checklist.GetChecks | core/src/main/java/net/adamcin/oakpal/core/Checklist.java:228-233 | every check, in order, renamed to the checklist prefix followed by its own name |
| Checklists.NonBlankAfterPrefix | core/src/main/java/net/adamcin/oakpal/core/Checklist.java:323-327 | a prefixed name of a non-blank name is still non-blank |
| Checklists.SlashPrefixedEndsWith | core/src/main/java/net/adamcin/oakpal/core/Checklist.java:323-327 | a name behind a prefix ending in "/" ends with "/" and the name |
| Checklists.ShortNameOverridesPrefixedCheck | core/src/main/java/net/adamcin/oakpal/core/Checklist.java:228-233 | an abstract override spelled with a check's short name still overrides the prefixed check |
| Checklists.Builder.constructor | core/src/main/java/net/adamcin/oakpal/core/Checklist.java:246-258 | a builder for the module with no name and every list empty |
| Checklists.Builder.WithName | core/src/main/java/net/adamcin/oakpal/core/Checklist.java:260-263 | only the name changes |
| Checklists.Builder.WithCndUrls | core/src/main/java/net/adamcin/oakpal/core/Checklist.java:265-268 | the urls are appended and nothing else changes |
| Checklists.Builder.WithJcrNamespaces | core/src/main/java/net/adamcin/oakpal/core/Checklist.java:270-273 | the namespaces are appended and nothing else changes |
| Checklists.Builder.WithJcrNodetypes | core/src/main/java/net/adamcin/oakpal/core/Checklist.java:275-278 | the node types are appended and nothing else changes |
| Checklists.Builder.WithJcrPrivileges | core/src/main/java/net/adamcin/oakpal/core/Checklist.java:280-283 | the privileges are appended and nothing else changes |
| Checklists.Builder.WithForcedRoots | core/src/main/java/net/adamcin/oakpal/core/Checklist.java:285-288 | the forced roots are appended and nothing else changes |
| Checklists.Builder.WithChecks | core/src/main/java/net/adamcin/oakpal/core/Checklist.java:290-302 | exactly the valid specs are appended in order; every newly held spec is concrete, named and slash-free |
| Checklists.Builder.Build | core/src/main/java/net/adamcin/oakpal/core/Checklist.java:305-320 | the checklist keeps the module name, is named after the module when no name was given, and keeps the collected lists |
| ChecklistExporters.SelectorTypeByName | webster/src/main/java/net/adamcin/oakpal/webster/ChecklistExporter.java:206-213 | a selector type is found exactly when some type's name equals the argument ignoring case, and then it is that type; any other name fails with IllegalArgumentException "Unknown selector type: " plus the name |
| ChecklistExporters.SelectorTypeByAnyCase | webster/src/main/java/net/adamcin/oakpal/webster/ChecklistExporter.java:206-213 | every case variant of a selector type's name selects exactly that type |
| ChecklistExporters.PolicyByName | webster/src/main/java/net/adamcin/oakpal/webster/ChecklistExporter.java:273-280 | a forced-root update policy is found exactly when some policy's name equals the argument ignoring case; any other name fails with IllegalArgumentException "Unknown policy name: " plus the name |
| ChecklistExporters.PolicyByAnyCase | webster/src/main/java/net/adamcin/oakpal/webster/ChecklistExporter.java:273-280 | every case variant of a policy's name selects exactly that policy |
| ChecklistExporters.Builder.constructor | webster/src/main/java/net/adamcin/oakpal/webster/ChecklistExporter.java:87-92 | a new builder has no operations, export types, scopes or filters, and an empty namespace list |
| ChecklistExporters.Builder.ByPath | webster/src/main/java/net/adamcin/oakpal/webster/ChecklistExporter.java:101-105 | appends one path operation with the given paths and changes nothing else |
| ChecklistExporters.Builder.ByQuery | webster/src/main/java/net/adamcin/oakpal/webster/ChecklistExporter.java:114-118 | appends one query operation whose single argument is the statement and changes nothing else |
| ChecklistExporters.Builder.ByNodeType | webster/src/main/java/net/adamcin/oakpal/webster/ChecklistExporter.java:129-134 | appends one node-type operation and adds the same names to the type definitions to export; scopes, filters and namespaces stay |
| ChecklistExporters.Builder.WithScopePaths | webster/src/main/java/net/adamcin/oakpal/webster/ChecklistExporter.java:146-149 | replaces the path scopes, a null list meaning none; everything else stays |
| ChecklistExporters.Builder.WithNodeTypeFilters | webster/src/main/java/net/adamcin/oakpal/webster/ChecklistExporter.java:161-164 | replaces the node type filters, a null list meaning none; everything else stays |
| ChecklistExporters.Builder.WithJcrNamespaces | webster/src/main/java/net/adamcin/oakpal/webster/ChecklistExporter.java:172-175 | replaces the namespace list with the argument as given, null included; everything else stays |
| ChecklistExporters.Builder.WithExportNodeTypes | webster/src/main/java/net/adamcin/oakpal/webster/ChecklistExporter.java:187-190 | appends the given type names to those to export, a null list adding nothing; everything else stays |
| ChecklistExporters.Builder.Build | webster/src/main/java/net/adamcin/oakpal/webster/ChecklistExporter.java:197-200 | the exporter carries the builder's settings, every query operation has a statement and every node type selected by an operation is also exported |
| ChecklistExporters.IncludedTypes | webster/src/main/java/net/adamcin/oakpal/webster/ChecklistExporter.java:645-662 | a mixin name is kept exactly when it is among the node's mixins and passes the node type filters |
| ChecklistExporters.IncludedTypesAppend | webster/src/main/java/net/adamcin/oakpal/webster/ChecklistExporter.java:645-662 | the mixin filter keeps the order of the names: filtering two lists in turn is filtering them joined |
| ChecklistExporters.NodeToRoot | webster/src/main/java/net/adamcin/oakpal/webster/ChecklistExporter.java:645-662 | no root exactly when the node's path is out of scope; otherwise a root at that path whose primary type is present exactly when it passes the filters and whose mixins are exactly the node's mixins that pass |
| ChecklistExporters.Traversed | webster/src/main/java/net/adamcin/oakpal/webster/ChecklistExporter.java:628-636 | at most one root per path, and every root is in scope |
| ChecklistExporters.Traverse | webster/src/main/java/net/adamcin/oakpal/webster/ChecklistExporter.java:628-636 | the loop collects exactly the roots of the existing, in-scope paths, in path order |
| ChecklistExporters.RootsOf | webster/src/main/java/net/adamcin/oakpal/webster/ChecklistExporter.java:606-618 | at most one root per node, all in scope |
| ChecklistExporters.Queried | webster/src/main/java/net/adamcin/oakpal/webster/ChecklistExporter.java:606-618 | the roots a query finds have unique paths and are all in scope |
| ChecklistExporters.RunQuery | webster/src/main/java/net/adamcin/oakpal/webster/ChecklistExporter.java:606-618 | the loop over the query's nodes builds exactly the path-keyed map of their in-scope roots |
| ChecklistExporters.OpRoots | webster/src/main/java/net/adamcin/oakpal/webster/ChecklistExporter.java:219-235 | whatever an operation finds is in scope |
| ChecklistExporters.Found | webster/src/main/java/net/adamcin/oakpal/webster/ChecklistExporter.java:548-565 | whatever all operations find is in scope |
| ChecklistExporters.FindRoots | webster/src/main/java/net/adamcin/oakpal/webster/ChecklistExporter.java:548-565 | the loop runs every operation in order and returns exactly the concatenation of what each finds, all in scope |
| ChecklistExporters.IndexOfPath | webster/src/main/java/net/adamcin/oakpal/webster/ChecklistExporter.java:426 | the position of the first root with the path, or -1 when no root has it |
| ChecklistExporters.IndexOfPathIs | webster/src/main/java/net/adamcin/oakpal/webster/ChecklistExporter.java:426 | any index meeting that description is the first index with the path |
| ChecklistExporters.LookupMember | webster/src/main/java/net/adamcin/oakpal/webster/ChecklistExporter.java:426 | in a map with unique paths, each root is what its own path looks up |
| ChecklistExporters.PutLookup | webster/src/main/java/net/adamcin/oakpal/webster/ChecklistExporter.java:449 | after a put, the root's path looks up the root and every other path looks up what it did before |
| ChecklistExporters.PutKeeps | webster/src/main/java/net/adamcin/oakpal/webster/ChecklistExporter.java:449 | a put keeps paths unique and adds nothing but the root |
| ChecklistExporters.LastWithPath | webster/src/main/java/net/adamcin/oakpal/webster/ChecklistExporter.java:449 | the last root with the path, absent exactly when no root has that path |
| ChecklistExporters.PutAllLookup | webster/src/main/java/net/adamcin/oakpal/webster/ChecklistExporter.java:437-449 | after putting a list of roots, a path looks up the last root put with it, else what it looked up before |
| ChecklistExporters.PutAllUnique | webster/src/main/java/net/adamcin/oakpal/webster/ChecklistExporter.java:437-449 | putting roots keeps paths unique |
| ChecklistExporters.PutAll | webster/src/main/java/net/adamcin/oakpal/webster/ChecklistExporter.java:437-449 | every root of the map was there before or was put |
| ChecklistExporters.PutAllInScope | webster/src/main/java/net/adamcin/oakpal/webster/ChecklistExporter.java:437-449 | putting in-scope roots into an in-scope map keeps every root in scope |
| ChecklistExporters.InsertByPath | webster/src/main/java/net/adamcin/oakpal/webster/ChecklistExporter.java:451-452 | inserting into a path-sorted list keeps it sorted and adds exactly that root |
| ChecklistExporters.SortByPath | webster/src/main/java/net/adamcin/oakpal/webster/ChecklistExporter.java:451-452 | the sorted list is ordered by path and is a permutation of the input |
| ChecklistExporters.SortKeepsUnique | webster/src/main/java/net/adamcin/oakpal/webster/ChecklistExporter.java:451-452 | sorting roots with unique paths keeps their paths unique |
| ChecklistExporters.SortKeepsLookup | webster/src/main/java/net/adamcin/oakpal/webster/ChecklistExporter.java:451-452 | sorting roots with unique paths keeps them unique and changes no path's lookup |
| ChecklistExporters.RetainPolicies | webster/src/main/java/net/adamcin/oakpal/webster/ChecklistExporter.java:358-371 | TRUNCATE keeps nothing, MERGE keeps everything, what REPLACE keeps MERGE keeps, and no policy behaves as REPLACE |
| ChecklistExporters.ReplaceKeepsWhatIsNotExported | webster/src/main/java/net/adamcin/oakpal/webster/ChecklistExporter.java:358-371 | REPLACE keeps a root at a node's path exactly when the exporter itself produces no root for that node |
| ChecklistExporters.RemapRoot | webster/src/main/java/net/adamcin/oakpal/webster/ChecklistExporter.java:337-348 | the path is renamed, a primary type stays present or absent, and each mixin is renamed one for one |
| ChecklistExporters.RetainedRoots | webster/src/main/java/net/adamcin/oakpal/webster/ChecklistExporter.java:437-441 | the surviving existing roots are no more than the existing ones, and each passes the policy's filter |
| ChecklistExporters.MergeRetainsAll | webster/src/main/java/net/adamcin/oakpal/webster/ChecklistExporter.java:437-441 | under MERGE every existing root survives, renamed, in order |
| ChecklistExporters.TruncateRetainsNone | webster/src/main/java/net/adamcin/oakpal/webster/ChecklistExporter.java:437-441 | under TRUNCATE no existing root survives |
| ChecklistExporters.UpdateForcedRoots | webster/src/main/java/net/adamcin/oakpal/webster/ChecklistExporter.java:426-452 | the method computes exactly the retained roots, the new roots put over them and the result sorted by path |
| ChecklistExporters.KeepExisting | webster/src/main/java/net/adamcin/oakpal/webster/ChecklistExporter.java:437-440 | the existing roots, renamed and filtered, end up in a map keyed by path in which a later root replaces an earlier one with its path |
| ChecklistExporters.PutEach | webster/src/main/java/net/adamcin/oakpal/webster/ChecklistExporter.java:449 | each new root goes over the map in order, replacing the root with its path |
| ChecklistExporters.UpdatedRoots | webster/src/main/java/net/adamcin/oakpal/webster/ChecklistExporter.java:426-452 | the written roots are sorted by path with one root per path, and each is a new root or a retained existing one |
| ChecklistExporters.SortByPathMembers | webster/src/main/java/net/adamcin/oakpal/webster/ChecklistExporter.java:451-452 | every sorted root was among the roots sorted |
| ChecklistExporters.UpdatedRootsLookup | webster/src/main/java/net/adamcin/oakpal/webster/ChecklistExporter.java:426-452 | a path takes the last new root with it, and only a path no new root has keeps the last retained root |
| ChecklistExporters.ReplaceProtectsKeptRoots | webster/src/main/java/net/adamcin/oakpal/webster/ChecklistExporter.java:358-371 | under REPLACE, when every found root is in scope, a kept root is still what its path looks up after the update |
| ChecklistExporters.CovariantNames | webster/src/main/java/net/adamcin/oakpal/webster/ChecklistExporter.java:576-596 | at most one subtype query per listed name |
| ChecklistExporters.InvariantNames | webster/src/main/java/net/adamcin/oakpal/webster/ChecklistExporter.java:576-596 | at most one exact-type query per listed name |
| ChecklistExporters.CovariantNamesMembers | webster/src/main/java/net/adamcin/oakpal/webster/ChecklistExporter.java:576-596 | a type is queried with its subtypes exactly when it is listed with the covariant prefix and the repository knows it |
| ChecklistExporters.InvariantNamesMembers | webster/src/main/java/net/adamcin/oakpal/webster/ChecklistExporter.java:576-596 | a type is queried exactly when it is listed without the prefix and the repository knows it |
| ChecklistExporters.NtStatement | webster/src/main/java/net/adamcin/oakpal/webster/ChecklistExporter.java:576-596 | the statement always ends with the traversal and index options |
| ChecklistExporters.CovariantQueriesFirst | webster/src/main/java/net/adamcin/oakpal/webster/ChecklistExporter.java:580-595 | with both kinds of names, the statement is the union of the subtype queries followed by the union of the exact-type queries |
| ChecklistExporters.ExportsTypeDefByPrefix | webster/src/main/java/net/adamcin/oakpal/webster/ChecklistExporter.java:373-387 | a type definition is exported exactly when its name passes the filters and it is listed without the prefix or one of its supertypes is listed with it |
| CheckSpecs.Merge | core/src/main/java/net/adamcin/oakpal/core/CheckSpec.java:422-427 | the merged config has the keys of both; an overlay key wins, a base key survives where the overlay lacks it; a missing config counts as empty |
| CheckSpecs.Spec.BaseCompositeOver | core/src/main/java/net/adamcin/oakpal/core/CheckSpec.java:344-359 | identity fields come from the other spec; an inline script carries script and engine and drops impl, otherwise a non-empty impl is kept, otherwise an abstract spec takes the other's implementation; configs are merged with this spec on top |
| CheckSpecs.Spec.Overlay | core/src/main/java/net/adamcin/oakpal/core/CheckSpec.java:370-374 | the composite is skipped when either side is skipped, and otherwise is the base composite |
| CheckSpecs.Spec.Inherit | core/src/main/java/net/adamcin/oakpal/core/CheckSpec.java:407-412 | the inheriting spec keeps its own name when it has one and its own skip flag, and takes the template and the composite implementation |
| CheckSpecs.CheckSpec.constructor | core/src/main/java/net/adamcin/oakpal/core/CheckSpec.java:105-111 | a new mutable spec with every field unset |
| CheckSpecs.CheckSpec.Frozen | core/src/main/java/net/adamcin/oakpal/core/CheckSpec.java:545-561 | an immutable spec holding exactly the given values |
| CheckSpecs.CheckSpec.Refused | core/src/main/java/net/adamcin/oakpal/core/CheckSpec.java:564-596 | an ImmutableSpec setter fails with UnsupportedOperationException |
| CheckSpecs.CheckSpec.SetImpl | core/src/main/java/net/adamcin/oakpal/core/CheckSpec.java:129-131 | on a mutable spec only impl changes; on an immutable one the call fails and nothing changes |
| CheckSpecs.CheckSpec.SetInlineScript | core/src/main/java/net/adamcin/oakpal/core/CheckSpec.java:152-154 | on a mutable spec only inlineScript changes; an immutable spec refuses |
| CheckSpecs.CheckSpec.SetInlineEngine | core/src/main/java/net/adamcin/oakpal/core/CheckSpec.java:173-175 | on a mutable spec only inlineEngine changes; an immutable spec refuses |
| CheckSpecs.CheckSpec.SetName | core/src/main/java/net/adamcin/oakpal/core/CheckSpec.java:219-221 | on a mutable spec only name changes; an immutable spec refuses |
| CheckSpecs.CheckSpec.SetTemplate | core/src/main/java/net/adamcin/oakpal/core/CheckSpec.java:239-241 | on a mutable spec only template changes; an immutable spec refuses |
| CheckSpecs.CheckSpec.SetSkip | core/src/main/java/net/adamcin/oakpal/core/CheckSpec.java:268-270 | on a mutable spec only skip changes; an immutable spec refuses |
| CheckSpecs.CheckSpec.SetConfig | core/src/main/java/net/adamcin/oakpal/core/CheckSpec.java:297-299 | on a mutable spec only config changes; an immutable spec refuses |
| CheckSpecs.CheckSpec.BaseCompositeOver | core/src/main/java/net/adamcin/oakpal/core/CheckSpec.java:344-359 | a fresh mutable spec holding the value-level base composite |
| CheckSpecs.CheckSpec.Overlay | core/src/main/java/net/adamcin/oakpal/core/CheckSpec.java:370-374 | a fresh mutable spec holding the value-level overlay |
| CheckSpecs.CheckSpec.Inherit | core/src/main/java/net/adamcin/oakpal/core/CheckSpec.java:407-412 | a fresh mutable spec holding the value-level inheritance |
| CheckSpecs.CopyOf | core/src/main/java/net/adamcin/oakpal/core/CheckSpec.java:517-527 | a fresh mutable spec with the same values as the original |
| CheckSpecs.ImmutableCopyOf | core/src/main/java/net/adamcin/oakpal/core/CheckSpec.java:529-538 | a fresh immutable spec with the same values as the original |
| CndUrlInstallers.TryOne | core/src/main/java/net/adamcin/oakpal/core/CNDURLInstaller.java:160-171 | the repository is what the attempt left, failed or not; a CND that registers is removed and reports nothing; one that fails is kept at the end and reported with its error exactly when logging |
| CndUrlInstallers.TryOneExtends | core/src/main/java/net/adamcin/oakpal/core/CNDURLInstaller.java:160-171 | trying one more CND keeps the earlier reports and reports at most that CND, and only when logging |
| CndUrlInstallers.Pass | core/src/main/java/net/adamcin/oakpal/core/CNDURLInstaller.java:155-172 | a pass keeps some of the CNDs it tried; a logged pass reports exactly the ones it keeps, in order, after the earlier reports, and a silent one reports nothing |
| CndUrlInstallers.RegisterFromProperties | core/src/main/java/net/adamcin/oakpal/core/CNDURLInstaller.java:123-145 | at most five passes run, fewer only when every CND registered; the CNDs left are among those given and exactly they are reported, by the last pass only |
| CndUrlInstallers.AllRegisterInOnePass | core/src/main/java/net/adamcin/oakpal/core/CNDURLInstaller.java:123-145 | when every CND registers, one pass registers them all and nothing is reported |
| CndUrlInstallers.NoFailureNoneRemain | core/src/main/java/net/adamcin/oakpal/core/CNDURLInstaller.java:160-165 | a pass in which nothing fails keeps nothing |
| CndUrlInstallers.ByUrlIsOneLoggedPass | core/src/main/java/net/adamcin/oakpal/core/CNDURLInstaller.java:102-115 | registering by URL is one attempt per CND in order, reporting exactly the ones that fail |
| CndUrlInstallers.CndUrlInstaller.constructor | core/src/main/java/net/adamcin/oakpal/core/CNDURLInstaller.java:56-62 | the installer keeps its CND lists, a missing post-install list being empty, and has reported nothing |
| CndUrlInstallers.CndUrlInstaller.Register | core/src/main/java/net/adamcin/oakpal/core/CNDURLInstaller.java:69-72 | the unordered CNDs are registered with retries before the post-install CNDs are registered by URL |
| CndUrlInstallers.CndUrlInstaller.RegisterNodeTypes | core/src/main/java/net/adamcin/oakpal/core/CNDURLInstaller.java:123-145 | the while loop over passes reaches the state of the retried registration |
| CndUrlInstallers.CndUrlInstaller.TryRegisterNodeTypes | core/src/main/java/net/adamcin/oakpal/core/CNDURLInstaller.java:155-172 | the iterator loop removes each CND that registers and reaches the state of one pass |
| CndUrlInstallers.CndUrlInstaller.TryAt | core/src/main/java/net/adamcin/oakpal/core/CNDURLInstaller.java:162-170 | one step of the iterator is one more CND of a pass: removed when it registers, otherwise kept, stepped over and reported when logging |
| CndUrlInstallers.CndUrlInstaller.RegisterNodeTypesByUrl | core/src/main/java/net/adamcin/oakpal/core/CNDURLInstaller.java:102-115 | the loop reaches the state of registration by URL |
| CliCommand.FlipOpt | cli/src/main/java/net/adamcin/oakpal/cli/Command.java:151-159 | an option is flipped exactly when it starts with --no- or +, --no-x giving --x and +x giving -x |
| CliCommand.FlipOptNegations | cli/src/main/java/net/adamcin/oakpal/cli/Command.java:151-159 | negating the long or short spelling of an option and flipping it gives that spelling back; anything else is not flipped |
| CliCommand.NotNegated | cli/src/main/java/net/adamcin/oakpal/cli/Command.java:151-159 | an option with a leading - that is not --no- is not negated |
| CliCommand.RunModeList | cli/src/main/java/net/adamcin/oakpal/cli/Command.java:229-240 | the run modes are non-blank and contain no comma |
| CliCommand.ReadOne | cli/src/main/java/net/adamcin/oakpal/cli/Command.java:164-271 | an argument uses the value after it only when there is one |
| CliCommand.ReadArg | cli/src/main/java/net/adamcin/oakpal/cli/Command.java:162-164 | reading an argument moves forward and never past the last argument |
| CliCommand.ReadOneScansFiles | cli/src/main/java/net/adamcin/oakpal/cli/Command.java:164-271 | reading one argument adds only regular files to the files to scan, and throws only for an option whose value is missing |
| CliCommand.ParseFromScansFiles | cli/src/main/java/net/adamcin/oakpal/cli/Command.java:161-275 | reading the rest of the arguments keeps every file to scan a regular file and throws only for a missing value |
| CliCommand.ParseArgs | cli/src/main/java/net/adamcin/oakpal/cli/Command.java:161-275 | no arguments give the new builder; every file to scan is a regular file; the only exception is the one for an option whose value is missing |
| CliCommand.ParseArgsLoop | cli/src/main/java/net/adamcin/oakpal/cli/Command.java:161-275 | the index loop gives the outcome of reading every argument in turn |
| CliCommand.ReadArgAt | cli/src/main/java/net/adamcin/oakpal/cli/Command.java:164-271 | one pass of the loop reaches exactly the step the option reader defines for the argument and the value after it |
| CliCommand.ReadOneIgnoresUnused | cli/src/main/java/net/adamcin/oakpal/cli/Command.java:164-271 | an argument that does not use the value after it reads the same whatever that value is |
| CliCommand.ReadArgPrefix | cli/src/main/java/net/adamcin/oakpal/cli/Command.java:162-164 | reading an argument sees only it and the value after it |
| CliCommand.ParseAppend | cli/src/main/java/net/adamcin/oakpal/cli/Command.java:161-275 | arguments read in two runs: a first run ending in a builder is continued by the second, a failure is the answer |
| CliCommand.ParseShift | cli/src/main/java/net/adamcin/oakpal/cli/Command.java:162-164 | reading the tail of arguments from an index is reading it alone |
| CliCommand.ParseThen | cli/src/main/java/net/adamcin/oakpal/cli/Command.java:161-275 | arguments after ones that read into a builder are read on from it |
| CliCommand.ParseOne | cli/src/main/java/net/adamcin/oakpal/cli/Command.java:162-164 | a single argument is read in one step |
| CliCommand.ParseWithValue | cli/src/main/java/net/adamcin/oakpal/cli/Command.java:162-164 | an option and the value after it are read in one step |
| CliCommand.ReadSwitch | cli/src/main/java/net/adamcin/oakpal/cli/Command.java:170-200 | a positive switch turns its setting on whatever follows it |
| CliCommand.ReadNegated | cli/src/main/java/net/adamcin/oakpal/cli/Command.java:166-168 | a negated option clears its setting whatever follows it |
| CliCommand.LaterSwitchOverrides | cli/src/main/java/net/adamcin/oakpal/cli/Command.java:161-275 | a later switch overrides earlier arguments: its positive spelling turns it on, its negated spellings off, nothing else changes |
| CliCommand.StoreBlobsSpellings | cli/src/main/java/net/adamcin/oakpal/cli/Command.java:178-181 | -b and --store-blobs name the store-blobs switch, negated as +b and --no-store-blobs |
| CliCommand.StoreBlobsLastWins | cli/src/main/java/net/adamcin/oakpal/cli/Command.java:178-181 | -b after any arguments stores blobs; +b and --no-store-blobs after them do not |
| CliCommand.UnknownSeverityFails | cli/src/main/java/net/adamcin/oakpal/cli/Command.java:249-263 | an unknown severity makes parsing fail with the error Severity.byName gave |
| CliCommand.MissingValueThrows | cli/src/main/java/net/adamcin/oakpal/cli/Command.java:249-256 | an option whose value is missing throws |
| CliCommand.ScanFileArgument | cli/src/main/java/net/adamcin/oakpal/cli/Command.java:264-270 | any other argument is a scan file: parsing fails with "is not a file." when it names none, else adds it |
| CliCommand.Severities | cli/src/main/java/net/adamcin/oakpal/cli/Command.java:109-111 | a severity is listed exactly when some violation has it |
| CliCommand.ReportSeverities | cli/src/main/java/net/adamcin/oakpal/cli/Command.java:109-111 | a severity is listed exactly when some violation of some report has it |
| CliCommand.MaxSeverity | cli/src/main/java/net/adamcin/oakpal/cli/Command.java:112 | the most severe of the severities, none exactly when there are none |
| CliCommand.ExitCodeFor | cli/src/main/java/net/adamcin/oakpal/cli/Command.java:114-123 | severe, major and minor violations exit with 10, 11 and 12, the code falling as the severity rises, and never with the code of success, a general error or an aborted scan |
| CliCommand.HighestReportSeverity | cli/src/main/java/net/adamcin/oakpal/cli/Command.java:107-125 | there is an exit code exactly when some violation meets the fail-on severity, and it is then the code of the most severe violation |
| CliCommand.PerformExitCodes | cli/src/main/java/net/adamcin/oakpal/cli/Command.java:52-101 | a run exits 0 exactly for help, version, or a scan with nothing severe enough; bad options give 1, an aborted scan 9, a failing scan its most severe violation's code |
| CompositeStoreAlignment.MountsOf | core/src/main/java/net/adamcin/oakpal/core/checks/CompositeStoreAlignment.java:120-133 | every key of the mounts object with a string or string-array value becomes a mount with those paths, except the default mount's name |
| CompositeStoreAlignment.NewInstance | core/src/main/java/net/adamcin/oakpal/core/checks/CompositeStoreAlignment.java:114-140 | the severity is the configured name in any ASCII case, MAJOR by default, an unknown name failing with IllegalArgumentException; the mounts come from the mounts object, and without one a single apps mount holds /apps and /libs |
| CompositeStoreAlignment.DefaultConfig | core/src/main/java/net/adamcin/oakpal/core/checks/CompositeStoreAlignment.java:114-140 | an empty configuration gives MAJOR severity and the single apps mount |
| CompositeStoreAlignment.HandledAll | core/src/main/java/net/adamcin/oakpal/core/checks/CompositeStoreAlignment.java:183-192 | the mounts held for the current package stay free of duplicates |
| CompositeStoreAlignment.HandledAllMounts | core/src/main/java/net/adamcin/oakpal/core/checks/CompositeStoreAlignment.java:183-192 | after a run of paths a mount is held exactly when it was held before or holds a path that is not ignored |
| CompositeStoreAlignment.IgnoredPathsHoldNothing | core/src/main/java/net/adamcin/oakpal/core/checks/CompositeStoreAlignment.java:183-192 | with no non-default mount, or paths only at the root, /etc or the package root, nothing new is held |
| CompositeStoreAlignment.AddSubpackage | core/src/main/java/net/adamcin/oakpal/core/checks/CompositeStoreAlignment.java:164-167 | the subpackage gets an empty list and, when its parent is another package, is appended to that parent's list; every other package's list is unchanged (corrected definition, Findings row 2: for a package named as its own parent the source appends it to its own list, AddSubpackageAsWritten) |
| CompositeStoreAlignment.AddSubpackageThrows | core/src/main/java/net/adamcin/oakpal/core/checks/CompositeStoreAlignment.java:164-167 | identifying a subpackage throws exactly when its parent was never identified |
| CompositeStoreAlignment.AddSubpackageAsWritten | core/src/main/java/net/adamcin/oakpal/core/checks/CompositeStoreAlignment.java:164-167 | a package identified as its own subpackage ends up listed under itself |
| CompositeStoreAlignment.IdentifyKeepsRanked | core/src/main/java/net/adamcin/oakpal/core/checks/CompositeStoreAlignment.java:159-161 | identifying a package keeps every subpackage more recent than its parent |
| CompositeStoreAlignment.AddSubpackageKeepsRanked | core/src/main/java/net/adamcin/oakpal/core/checks/CompositeStoreAlignment.java:164-167 | identifying a subpackage keeps every subpackage more recent than its parent |
| CompositeStoreAlignment.RankDecreases | core/src/main/java/net/adamcin/oakpal/core/checks/CompositeStoreAlignment.java:213-219 | a listed subpackage ranks below its parent, so the graph recursion ends |
| CompositeStoreAlignment.Own | core/src/main/java/net/adamcin/oakpal/core/checks/CompositeStoreAlignment.java:209-211 | the mounts recorded for a package are distinct |
| CompositeStoreAlignment.GraphMounts | core/src/main/java/net/adamcin/oakpal/core/checks/CompositeStoreAlignment.java:213-219 | the graph's mounts are distinct and begin with the package's own mounts |
| CompositeStoreAlignment.KidsMountsMembers | core/src/main/java/net/adamcin/oakpal/core/checks/CompositeStoreAlignment.java:213-219 | the loop over subpackages collects exactly the own mounts and those of the listed subpackages' graphs |
| CompositeStoreAlignment.GraphMountsMembers | core/src/main/java/net/adamcin/oakpal/core/checks/CompositeStoreAlignment.java:213-219 | a mount is affected by a graph exactly when the package or a subpackage's graph affects it |
| CompositeStoreAlignment.RecursiveMisalignmentFromSubpackage | core/src/main/java/net/adamcin/oakpal/core/checks/CompositeStoreAlignment.java:222-247 | a single-mount package whose graph spans more mounts has a subpackage whose graph affects another mount |
| CompositeStoreAlignment.LeafGraphIsOwn | core/src/main/java/net/adamcin/oakpal/core/checks/CompositeStoreAlignment.java:213-219 | a package without subpackages affects only its own mounts |
| CompositeStoreAlignment.GraphMountsAsWritten | core/src/main/java/net/adamcin/oakpal/core/checks/CompositeStoreAlignment.java:213-219 | the recursion as written, bounded by a stack depth, yields distinct mounts when it returns |
| CompositeStoreAlignment.KidsOverflow | core/src/main/java/net/adamcin/oakpal/core/checks/CompositeStoreAlignment.java:213-219 | one subpackage whose graph overflows the stack makes the whole loop overflow |
| CompositeStoreAlignment.SelfListedOverflows | core/src/main/java/net/adamcin/oakpal/core/checks/CompositeStoreAlignment.java:213-219 | a package listed under itself overflows however deep the stack is |
| CompositeStoreAlignment.SelfParentOverflows | core/src/main/java/net/adamcin/oakpal/core/checks/CompositeStoreAlignment.java:164-167 | identifying a package as its own subpackage makes the graph recursion overflow on it |
| CompositeStoreAlignment.AsWrittenAgrees | core/src/main/java/net/adamcin/oakpal/core/checks/CompositeStoreAlignment.java:213-219 | on lists where subpackages are more recent than parents, the recursion as written computes the graph's mounts |
| CompositeStoreAlignment.KidsAsWrittenAgrees | core/src/main/java/net/adamcin/oakpal/core/checks/CompositeStoreAlignment.java:213-219 | the loop as written agrees with the loop over ranked lists |
| CompositeStoreAlignment.PackageVerdict | core/src/main/java/net/adamcin/oakpal/core/checks/CompositeStoreAlignment.java:222-247 | at most one violation: none for an excluded package or one without content; a package in several mounts is reported with its own mounts; a single-mount package is reported exactly when its graph spans several mounts |
| CompositeStoreAlignment.VerdictsStep | core/src/main/java/net/adamcin/oakpal/core/checks/CompositeStoreAlignment.java:222-247 | the verdicts for one more package are those so far followed by its own |
| CompositeStoreAlignment.Check.constructor | core/src/main/java/net/adamcin/oakpal/core/checks/CompositeStoreAlignment.java:142-156 | a new check holds its configuration and no packages, mounts or reports |
| CompositeStoreAlignment.Check.IdentifyPackage | core/src/main/java/net/adamcin/oakpal/core/checks/CompositeStoreAlignment.java:159-161 | the package gets an empty subpackage list; nothing else changes |
| CompositeStoreAlignment.Check.IdentifySubpackage | core/src/main/java/net/adamcin/oakpal/core/checks/CompositeStoreAlignment.java:164-167 | the lists become those of the corrected AddSubpackage (Findings row 2; the source differs only when the parent is the package itself), the exception is raised exactly when the parent is unknown |
| CompositeStoreAlignment.Check.HandlePath | core/src/main/java/net/adamcin/oakpal/core/checks/CompositeStoreAlignment.java:183-192 | the current mounts become those after handling the path; the rest of the state is unchanged |
| CompositeStoreAlignment.Check.ImportedPath | core/src/main/java/net/adamcin/oakpal/core/checks/CompositeStoreAlignment.java:195-200 | an imported path is handled like any path |
| CompositeStoreAlignment.Check.DeletedPath | core/src/main/java/net/adamcin/oakpal/core/checks/CompositeStoreAlignment.java:203-207 | a deleted path is handled like any path |
| CompositeStoreAlignment.Check.AfterExtract | core/src/main/java/net/adamcin/oakpal/core/checks/CompositeStoreAlignment.java:170-173 | the gathered mounts are recorded for the package, first extractions kept in order, and gathering starts over |
| CompositeStoreAlignment.Check.MountsAffectedByPackageGraph | core/src/main/java/net/adamcin/oakpal/core/checks/CompositeStoreAlignment.java:213-219 | the method returns the graph's mounts (corrected definition, Findings row 2) |
| CompositeStoreAlignment.Check.PackageReport | core/src/main/java/net/adamcin/oakpal/core/checks/CompositeStoreAlignment.java:222-247 | one pass of the loop reports the package's verdict |
| CompositeStoreAlignment.Check.FinishedScan | core/src/main/java/net/adamcin/oakpal/core/checks/CompositeStoreAlignment.java:222-247 | the reports become the verdicts for every recorded package in order (corrected definition, Findings row 2) |
| CompositeStoreAlignment.Check.PackageReports | core/src/main/java/net/adamcin/oakpal/core/checks/CompositeStoreAlignment.java:223-246 | the loop finds exactly the verdicts for the packages, in order (corrected definition, Findings row 2) |
| DestFileNames.SplitName | maven/src/main/java/net/adamcin/oakpal/maven/mojo/OpearPackageMojo.java:253-255 | base and extension make up the name, the extension starting at the last dot only when that dot is not the first character |
| DestFileNames.CandidateInjective | maven/src/main/java/net/adamcin/oakpal/maven/mojo/OpearPackageMojo.java:256-259 | different attempts give different names |
| DestFileNames.CandidatesCount | maven/src/main/java/net/adamcin/oakpal/maven/mojo/OpearPackageMojo.java:256-259 | the first c attempts are c different names |
| DestFileNames.TakenBound | maven/src/main/java/net/adamcin/oakpal/maven/mojo/OpearPackageMojo.java:256-259 | when the first c attempts are all taken, at least c names are taken, so the search ends |
| DestFileNames.FirstFree | maven/src/main/java/net/adamcin/oakpal/maven/mojo/OpearPackageMojo.java:256-259 | the attempt found is free and every attempt before it is taken |
| DestFileNames.FreeName | maven/src/main/java/net/adamcin/oakpal/maven/mojo/OpearPackageMojo.java:252-259 | the name found is not taken: the file's own when free, else base_N.ext for the smallest N of at least 1 that is free |
| DestFileNames.PlaceStep | maven/src/main/java/net/adamcin/oakpal/maven/mojo/OpearPackageMojo.java:252-260 | placing one file keeps each name stored once, adding the file under a name not taken before |
| DestFileNames.PlaceAll | maven/src/main/java/net/adamcin/oakpal/maven/mojo/OpearPackageMojo.java:249-264 | placing files keeps earlier entries as they were, each file getting a new name of its own, appended in file order, keys unique |
| DestFileNames.FirstOccurrenceKeepsName | maven/src/main/java/net/adamcin/oakpal/maven/mojo/OpearPackageMojo.java:256-260 | a file whose name is free keeps it; one whose name is taken is numbered |
| DestFileNames.NumberingExamples | maven/src/main/java/net/adamcin/oakpal/maven/mojo/OpearPackageMojo.java:253-259 | a.jar taken gives a_1.jar, then a_2.jar |
| DestFileNames.HiddenNumbering | maven/src/main/java/net/adamcin/oakpal/maven/mojo/OpearPackageMojo.java:253-259 | .hidden has no extension and, taken, gives .hidden_1 |
| DestFileNames.DestFileMap.constructor | maven/src/main/java/net/adamcin/oakpal/maven/mojo/OpearPackageMojo.java:248-250 | the map starts empty |
| DestFileNames.DestFileMap.MapDestFileNames | maven/src/main/java/net/adamcin/oakpal/maven/mojo/OpearPackageMojo.java:249-264 | the map's keys and values become those of every file placed in turn |
| DestFileNames.NextFreeName | maven/src/main/java/net/adamcin/oakpal/maven/mojo/OpearPackageMojo.java:256-259 | the inner loop finds the free name |
| DestFileNames.FirstFreeFrom | maven/src/main/java/net/adamcin/oakpal/maven/mojo/OpearPackageMojo.java:256-259 | starting the search at a later attempt whose predecessors are taken finds the same name |
| DocViewNames.SetMapping | webster/src/main/java/net/adamcin/oakpal/webster/DocViewNameFinder.java:311-323 | after setting, the prefix maps to the URI and back, a two-way mapping stays two-way, and every other prefix not on that URI keeps its URI |
| DocViewNames.SetMappingAgain | webster/src/main/java/net/adamcin/oakpal/webster/DocViewNameFinder.java:318-319 | mapping a prefix to the URI it already maps to changes nothing |
| DocViewNames.FirstWith | webster/src/main/java/net/adamcin/oakpal/webster/DocViewNameFinder.java:331-335 | the position found holds the prefix and no entry before it does, or none does |
| DocViewNames.StartPrefixMaps | webster/src/main/java/net/adamcin/oakpal/webster/DocViewNameFinder.java:300-326 | a start pushes the entry on the stack head, as the newest for its prefix, and leaves the prefix mapped to the URI both ways |
| DocViewNames.EndPrefix | webster/src/main/java/net/adamcin/oakpal/webster/DocViewNameFinder.java:329-358 | an end fails with "never mapped" exactly when no entry has the prefix, and otherwise removes one entry |
| DocViewNames.EndUndoesStart | webster/src/main/java/net/adamcin/oakpal/webster/DocViewNameFinder.java:300-358 | ending a prefix just started gives the stack back and remaps the prefix to its next older entry's URI when there is one, else leaves the started URI |
| DocViewNames.DocViewNameCheckHandler.constructor | webster/src/main/java/net/adamcin/oakpal/webster/DocViewNameFinder.java:283-287 | a new handler has an empty mapping and an empty stack |
| DocViewNames.DocViewNameCheckHandler.StartPrefixMapping | webster/src/main/java/net/adamcin/oakpal/webster/DocViewNameFinder.java:300-326 | the stack and mapping become those after the start |
| DocViewNames.DocViewNameCheckHandler.EndPrefixMapping | webster/src/main/java/net/adamcin/oakpal/webster/DocViewNameFinder.java:329-358 | the two walks of the linked stack reach the state after the end, or the error with the state unchanged |
| DocViewNames.SetAdd | webster/src/main/java/net/adamcin/oakpal/webster/DocViewNameFinder.java:162-166 | adding to an insertion-ordered set keeps it, in order, adds the name, and adds nothing twice |
| DocViewNames.SetAddAll | webster/src/main/java/net/adamcin/oakpal/webster/DocViewNameFinder.java:164-167 | adding names keeps the set in order and holds exactly its names and the added ones, without duplicates |
| DocViewNames.ParseQName | webster/src/main/java/net/adamcin/oakpal/webster/DocViewNameFinder.java:141-151 | a name is parsed exactly when it has a colon and the mapping has the prefix before the first colon, with that prefix's URI; else null |
| DocViewNames.AdaptName | webster/src/main/java/net/adamcin/oakpal/webster/DocViewNameFinder.java:153-158 | a name adapts exactly when the mapping has a prefix for its URI |
| DocViewNames.AdaptAll | webster/src/main/java/net/adamcin/oakpal/webster/DocViewNameFinder.java:164-167 | the adapted names are exactly the names that adapt, those that do not being dropped |
| DocViewNames.CollectPrivilege | webster/src/main/java/net/adamcin/oakpal/webster/DocViewNameFinder.java:160-171 | a privilege whose name does not adapt collects nothing; otherwise it is defined and its adaptable aggregates referenced; no reference is lost |
| DocViewNames.DependencyNamesAsWritten | webster/src/main/java/net/adamcin/oakpal/webster/DocViewNameFinder.java:173-182 | as written every reference collected from a node type is the node type's own name |
| DocViewNames.NodeTypeReferencesCancelledAsWritten | webster/src/main/java/net/adamcin/oakpal/webster/DocViewNameFinder.java:173-182 | as written every reference collected from a node type is also collected as a definition, so none survives the subtraction |
| DocViewNames.DependencyLostAsWritten | webster/src/main/java/net/adamcin/oakpal/webster/DocViewNameFinder.java:173-210 | a node type depending on nt:base never has that dependency referenced as written |
| DocViewNames.CollectNodeType | webster/src/main/java/net/adamcin/oakpal/webster/DocViewNameFinder.java:173-182 | the node type is defined when its name adapts, and exactly its adaptable dependencies are added to the references, none of which is lost |
| DocViewNames.CollectPrivilegesDefines | webster/src/main/java/net/adamcin/oakpal/webster/DocViewNameFinder.java:186-189 | collecting privileges in order keeps every name already collected and defines each privilege whose name adapts |
| DocViewNames.CollectNodeTypesDefines | webster/src/main/java/net/adamcin/oakpal/webster/DocViewNameFinder.java:191-195 | collecting node types in order keeps every name already collected, defines each node type whose name adapts and references each dependency that adapts (corrected definition, Findings row 5) |
| DocViewNames.CollectSetsDefines | webster/src/main/java/net/adamcin/oakpal/webster/DocViewNameFinder.java:191-195 | collecting node type sets, each with its own mapping, keeps every name already collected and defines each node type whose name adapts (corrected definition, Findings row 5) |
| DocViewNames.SearchedDefines | webster/src/main/java/net/adamcin/oakpal/webster/DocViewNameFinder.java:184-247 | after search collects, every privilege (when the metadata lists any) and every node type of the metadata and the CND files whose name adapts is defined, and nothing collected before is lost (corrected definition, Findings row 5) |
| DocViewNames.Subtract | webster/src/main/java/net/adamcin/oakpal/webster/DocViewNameFinder.java:203-207 | the names kept are references that are not defined |
| DocViewNames.SubtractProperties | webster/src/main/java/net/adamcin/oakpal/webster/DocViewNameFinder.java:203-207 | every reference not defined is kept, in order, and every kept name is such a reference, none twice |
| DocViewNames.DocViewNameFinder.constructor | webster/src/main/java/net/adamcin/oakpal/webster/DocViewNameFinder.java:110-112 | a new finder has no references and no definitions |
| DocViewNames.DocViewNameFinder.LoadBuiltins | webster/src/main/java/net/adamcin/oakpal/webster/DocViewNameFinder.java:113-139 | the built-in privilege and node type names that parse with the built-in mappings are defined, and nothing else is added |
| DocViewNames.DocViewNameFinder.CollectPrivilegeDefinition | webster/src/main/java/net/adamcin/oakpal/webster/DocViewNameFinder.java:160-171 | the finder's names become those after collecting the privilege |
| DocViewNames.DocViewNameFinder.CollectNodeTypeNames | webster/src/main/java/net/adamcin/oakpal/webster/DocViewNameFinder.java:173-182 | the finder's names become those after collecting the node type with its dependencies as references (corrected definition, Findings row 5; as written the dependencies are lost, DependencyLostAsWritten) |
| DocViewNames.DocViewNameFinder.CollectPrivilegeDefinitions | webster/src/main/java/net/adamcin/oakpal/webster/DocViewNameFinder.java:186-189 | the finder's names become those after collecting each privilege in order |
| DocViewNames.DocViewNameFinder.CollectNodeTypeSet | webster/src/main/java/net/adamcin/oakpal/webster/DocViewNameFinder.java:191-195 | the finder's names become those after collecting each node type of the set in order, with the set's mapping (corrected CollectNodeType, Findings row 5) |
| DocViewNames.DocViewNameFinder.Search | webster/src/main/java/net/adamcin/oakpal/webster/DocViewNameFinder.java:184-249 | the finder's names become the old ones with the privileges collected (only when there are any), then each node type set of the metadata, then those of the CND files; the result is the references not defined, in order (node types through the corrected CollectNodeType, Findings row 5) |
| DocViewNames.DocViewNameFinder.Undefined | webster/src/main/java/net/adamcin/oakpal/webster/DocViewNameFinder.java:201-207 | the references not defined, in order, none twice, and every reference not defined among them (corrected definition, Findings row 5) |
| DocViewNames.AddKeeps | webster/src/main/java/net/adamcin/oakpal/webster/DocViewNameFinder.java:132-138 | adding a parsed built-in keeps every definition accounted for |
| ExpectAces.ParamOf | core/src/main/java/net/adamcin/oakpal/core/checks/ExpectAces.java:355-360 | the key is the text before the first '=' and the value is the non-empty trimmed rest; a parameter with no '=' has no value |
| ExpectAces.ValueMap | core/src/main/java/net/adamcin/oakpal/core/checks/ExpectAces.java:364-367 | a failure is an IllegalStateException |
| ExpectAces.AddParam | core/src/main/java/net/adamcin/oakpal/core/Fun.java:219-222 | a parameter without a value leaves the map as it was; a valued key already present fails with an IllegalStateException "Duplicate key" and the value it had first; otherwise the key is added with its value and every other key keeps its own |
| ExpectAces.ValueMapDuplicate | core/src/main/java/net/adamcin/oakpal/core/Fun.java:219-222 | a failing value map names, after "Duplicate key ", the earlier value of a key that two parameters give a value |
| ExpectAces.ValueMapProperties | core/src/main/java/net/adamcin/oakpal/core/checks/ExpectAces.java:364-367 | the map fails exactly when a key is given a value twice; otherwise it holds exactly the keys with values, each with its value |
| ExpectAces.ListValues | core/src/main/java/net/adamcin/oakpal/core/checks/ExpectAces.java:388-392 | every item is non-empty and has no ',' |
| ExpectAces.RestrictionNamesOnce | core/src/main/java/net/adamcin/oakpal/core/checks/ExpectAces.java:363-402 | each key other than type, path and privileges, once |
| ExpectAces.RestrictionsOf | core/src/main/java/net/adamcin/oakpal/core/checks/ExpectAces.java:399-402 | one restriction per restriction key, with that key's value or none |
| ExpectAces.ParseValues | core/src/main/java/net/adamcin/oakpal/core/checks/ExpectAces.java:369-404 | the checks after the value map, in the source's order, each failure an IllegalStateException |
| ExpectAces.Parse | core/src/main/java/net/adamcin/oakpal/core/checks/ExpectAces.java:348-405 | an empty principal returns a failure naming the text; otherwise a key given a value twice makes the IllegalStateException escape the parse; every other failure is returned as an IllegalStateException; a parsed criterion has the named type, the trimmed path, the listed privileges, the restrictions and the text |
| ExpectAces.ParseSucceedsIff | core/src/main/java/net/adamcin/oakpal/core/checks/ExpectAces.java:348-405 | parsing returns a criterion exactly when the text passes every check |
| ExpectAces.ParseValuesSucceedsIff | core/src/main/java/net/adamcin/oakpal/core/checks/ExpectAces.java:369-404 | the checks after the value map pass exactly when a known type is given, the path key is present and a privilege is listed |
| ExpectAces.ParseAll | core/src/main/java/net/adamcin/oakpal/core/checks/ExpectAces.java:135-137 | each configured text parsed for the principal, in order |
| ExpectAces.FirstEscaped | core/src/main/java/net/adamcin/oakpal/core/checks/ExpectAces.java:134-136 | the first parse whose exception escaped, every parse before it having returned; none when every parse returned |
| ExpectAces.Gathered | core/src/main/java/net/adamcin/oakpal/core/checks/ExpectAces.java:134-144 | the exception of the first parse that escaped, unchanged, whatever the parses before it returned; otherwise all criteria in order when every parse succeeded, else an Exception naming the key and the first failure |
| ExpectAces.ParseAceCriteria | core/src/main/java/net/adamcin/oakpal/core/checks/ExpectAces.java:132-144 | every text is parsed before any result is read: the first escaping exception escapes unchanged; otherwise all criteria in order when every text parses, else an Exception naming the key and the first failure |
| ExpectAces.NewInstanceCriteria | core/src/main/java/net/adamcin/oakpal/core/checks/ExpectAces.java:120-130 | an empty trimmed principal fails with "principal must be non-empty"; otherwise a failure of the expected list ends the build with its exception, then a failure of the unexpected list; the build succeeds exactly when both lists parse, with both lists of criteria |
| ExpectAces.TypeName | core/src/main/java/net/adamcin/oakpal/core/checks/ExpectAces.java:412 | the type written reads back as the same type |
| ExpectAces.ParamOfKeyValue | core/src/main/java/net/adamcin/oakpal/core/checks/ExpectAces.java:355-360 | "key=value" reads back as the key and the trimmed value |
| ExpectAces.PrivilegesRoundTrip | core/src/main/java/net/adamcin/oakpal/core/checks/ExpectAces.java:388-392 | privileges joined with ',' read back as the same list |
| ExpectAces.SpecTextPairs | core/src/main/java/net/adamcin/oakpal/core/checks/ExpectAces.java:407-424 | the canonical text of a printable criterion reads back as its parameters |
| ExpectAces.SpecTextSplits | core/src/main/java/net/adamcin/oakpal/core/checks/ExpectAces.java:407-424 | the canonical text of a printable criterion splits back into its parameters |
| ExpectAces.ValueMapLookup | core/src/main/java/net/adamcin/oakpal/core/checks/ExpectAces.java:364-367 | with distinct keys the value map succeeds and looks each key up to its own value |
| ExpectAces.SpecPairsDistinct | core/src/main/java/net/adamcin/oakpal/core/checks/ExpectAces.java:407-424 | the parameters of a printable criterion have distinct keys |
| ExpectAces.SpecRestrictionNames | core/src/main/java/net/adamcin/oakpal/core/checks/ExpectAces.java:399-424 | the restriction names read back from the canonical text are the criterion's, in order |
| ExpectAces.SpecValues | core/src/main/java/net/adamcin/oakpal/core/checks/ExpectAces.java:369-397 | the type, path and privileges read back from the canonical text are the criterion's own |
| ExpectAces.SpecRestrictions | core/src/main/java/net/adamcin/oakpal/core/checks/ExpectAces.java:399-424 | the restrictions read back from the canonical text are the criterion's own |
| ExpectAces.ParseGetSpec | core/src/main/java/net/adamcin/oakpal/core/checks/ExpectAces.java:348-424 | a printable criterion's canonical text parses back to the same criterion, now remembering that text |
| ExpectAces.GetSpecParsed | core/src/main/java/net/adamcin/oakpal/core/checks/ExpectAces.java:407-409 | a parsed criterion prints as the text it was parsed from |
| ExpectAces.GetSpec | core/src/main/java/net/adamcin/oakpal/core/checks/ExpectAces.java:407-424 | a remembered text is given back unchanged; the canonical text of a printable criterion splits at ';' into its type, path, privileges and restriction parameters |
| ExpectAces.Check.ShouldExpectAfterExtract | core/src/main/java/net/adamcin/oakpal/core/checks/ExpectAces.java:177-179 | a package some rule matches is expected exactly when the last rule matching it includes; one no rule matches is expected unless the first rule includes |
| ExpectAces.DefinedValues | core/src/main/java/net/adamcin/oakpal/core/checks/ExpectAces.java:279-283 | a restriction the entry does not carry has no values |
| ExpectAces.RestrictionSatisfiedBy | core/src/main/java/net/adamcin/oakpal/core/checks/ExpectAces.java:270-294 | without a value the entry must carry the restriction; multi-valued, every listed value must be defined after trimming; single-valued, the value must be exactly it |
| ExpectAces.RestrictionsMatch | core/src/main/java/net/adamcin/oakpal/core/checks/ExpectAces.java:297-311 | every restriction the list allows is satisfied by the entry; restrictions the list does not allow are ignored |
| ExpectAces.Removed | core/src/main/java/net/adamcin/oakpal/core/checks/ExpectAces.java:481-486 | the names an entry removes are exactly its privileges' names and their aggregates |
| ExpectAces.Covered | core/src/main/java/net/adamcin/oakpal/core/checks/ExpectAces.java:471-487 | the names removed are exactly those granted by some matchable entry |
| ExpectAces.SatisfiedByCovered | core/src/main/java/net/adamcin/oakpal/core/checks/ExpectAces.java:468-489 | a criterion is satisfied exactly when the matchable entries remove every privilege it expects |
| ExpectAces.RemoveNames | core/src/main/java/net/adamcin/oakpal/core/checks/ExpectAces.java:483-485 | the expected set minus the aggregated names |
| ExpectAces.RemovePrivileges | core/src/main/java/net/adamcin/oakpal/core/checks/ExpectAces.java:481-486 | the expected set minus each privilege's name and aggregates |
| ExpectAces.CheckSatisfiedBy | core/src/main/java/net/adamcin/oakpal/core/checks/ExpectAces.java:468-489 | the loops return true exactly when each expected privilege is granted by some matchable entry of the list |
| ExpectAces.AnyMatch | core/src/main/java/net/adamcin/oakpal/core/checks/ExpectAces.java:207-212 | true exactly when some list at the path satisfies the criterion |
| ExpectAces.Group | core/src/main/java/net/adamcin/oakpal/core/checks/ExpectAces.java:173-175 | every criterion of a group has the group's path |
| ExpectAces.PathsOf | core/src/main/java/net/adamcin/oakpal/core/checks/ExpectAces.java:173-175 | the grouping's keys: each criterion path once |
| ExpectAces.AllPaths | core/src/main/java/net/adamcin/oakpal/core/checks/ExpectAces.java:195-196 | the paths visited are distinct and cover every criterion of both lists |
| ExpectAces.CountGroup | core/src/main/java/net/adamcin/oakpal/core/checks/ExpectAces.java:173-175 | a criterion occurs in its own path's group as often as in the list, and in no other group |
| ExpectAces.CountVisit | core/src/main/java/net/adamcin/oakpal/core/checks/ExpectAces.java:197-216 | visiting distinct paths meets a criterion once per occurrence when its path is among them |
| ExpectAces.Check.constructor | core/src/main/java/net/adamcin/oakpal/core/checks/ExpectAces.java:153-159 | the check holds the criteria and rules, with empty violator maps and no violations |
| ExpectAces.Check.StartedScan | core/src/main/java/net/adamcin/oakpal/core/checks/ExpectAces.java:167-171 | the violations and both violator maps are cleared |
| ExpectAces.Check.ChargeUnsatisfied | core/src/main/java/net/adamcin/oakpal/core/checks/ExpectAces.java:206-210 | each expected criterion of the group that no list satisfies is charged to the package |
| ExpectAces.Check.ChargeSatisfied | core/src/main/java/net/adamcin/oakpal/core/checks/ExpectAces.java:211-215 | each unexpected criterion of the group that some list satisfies is charged to the package |
| ExpectAces.Check.AfterExtract | core/src/main/java/net/adamcin/oakpal/core/checks/ExpectAces.java:189-218 | for a selected package, path by path, the unsatisfied expected and the satisfied unexpected criteria are charged; otherwise nothing changes |
| ExpectAces.Check.ReportCharged | core/src/main/java/net/adamcin/oakpal/core/checks/ExpectAces.java:222-227 | one MAJOR violation per charged criterion, in key order, is appended |
| ExpectAces.Check.FinishedScan | core/src/main/java/net/adamcin/oakpal/core/checks/ExpectAces.java:220-236 | the unsatisfied expected criteria are reported, then the satisfied unexpected ones, and both maps are cleared |
| ExpectAces.AfterExtractChargesExpected | core/src/main/java/net/adamcin/oakpal/core/checks/ExpectAces.java:189-218 | a package the rules leave out charges nothing; for a selected package an expected criterion is charged once per listing when no list at its path satisfies it, and never otherwise |
| ExpectAces.AfterExtractChargesUnexpected | core/src/main/java/net/adamcin/oakpal/core/checks/ExpectAces.java:189-218 | for a selected package an unexpected criterion is charged once per listing when some list at its path satisfies it, and never otherwise |
| ExpectPaths.Check.constructor | core/src/main/java/net/adamcin/oakpal/core/checks/ExpectPaths.java:57-83 | the check holds the configured paths and rules, with empty violator maps and no violations |
| ExpectPaths.Check.StartedScan | core/src/main/java/net/adamcin/oakpal/core/checks/ExpectPaths.java:90-94 | the violations and both violator maps are cleared |
| ExpectPaths.Check.ShouldExpectAfterExtract | core/src/main/java/net/adamcin/oakpal/core/checks/ExpectPaths.java:104-106 | a package some rule matches is expected exactly when the last rule matching it includes; one no rule matches is expected unless the first rule includes |
| ExpectPaths.Check.AfterExtract | core/src/main/java/net/adamcin/oakpal/core/checks/ExpectPaths.java:109-122 | a package the rules select is charged to every missing expected path and every present unexpected path; another package changes nothing |
| ExpectPaths.Check.ReportCharged | core/src/main/java/net/adamcin/oakpal/core/checks/ExpectPaths.java:126-131 | one MAJOR violation per charged path of the map, in key order, is appended |
| ExpectPaths.Check.FinishedScan | core/src/main/java/net/adamcin/oakpal/core/checks/ExpectPaths.java:125-140 | the missing expected paths are reported, then the unexpected present ones, and both maps are cleared |
| ExpectPaths.AfterExtractCharges | core/src/main/java/net/adamcin/oakpal/core/checks/ExpectPaths.java:109-122 | a package the rules leave out charges nothing, and a selected one is charged to a missing path once per listing and never to a present one |
| ExpectPaths.PresentPathNeverMissing | core/src/main/java/net/adamcin/oakpal/core/checks/ExpectPaths.java:109-122 | a path that exists after extraction is not charged as missing to that package |
| JavaxJson.NonEmptyValueCases | api/src/main/java/net/adamcin/oakpal/api/JavaxJson.java:72-77 | a value counts as empty exactly when it is null, JSON null, an empty array or an empty object |
| JavaxJson.Wrap | api/src/main/java/net/adamcin/oakpal/api/JavaxJson.java:141-217 | wrapping gives JSON null exactly for null or for a JSON null passed through |
| JavaxJson.Unwrap | api/src/main/java/net/adamcin/oakpal/api/JavaxJson.java:234-280 | unwrapping throws NullPointerException exactly when some object, at any depth, has a JSON null member (`Collectors.toMap` refuses a null value); otherwise it gives null exactly for JSON null |
| JavaxJson.NullMemberThrows | api/src/main/java/net/adamcin/oakpal/api/JavaxJson.java:269-280 | `{"a": null}` throws NullPointerException when unwrapped, and so does an array holding it |
| JavaxJson.WrapNullMembers | api/src/main/java/net/adamcin/oakpal/api/JavaxJson.java:141-217 | wrapping plain data gives an object with a JSON null member exactly where a map holds a null value |
| JavaxJson.UnwrapWrap | api/src/main/java/net/adamcin/oakpal/api/JavaxJson.java:141-280 | unwrap reverses wrap for plain Java data (null, booleans, strings, integers, lists and string-keyed maps) whose maps hold no null; plain data with a null map value, at any depth, makes unwrap of its wrapping throw NullPointerException |
| JavaxJson.WrapUnwrap | api/src/main/java/net/adamcin/oakpal/api/JavaxJson.java:234-280 | wrap reverses unwrap for every JSON value unwrap accepts, and what unwrap gives is plain data whose maps hold no null |
| JavaxJson.ValueOf | api/src/main/java/net/adamcin/oakpal/api/JavaxJson.java:328-336 | a dangling key cursor fails with an IllegalArgumentException; any other value succeeds with its wrapped form |
| JavaxJson.BuildObjectProperties | api/src/main/java/net/adamcin/oakpal/api/JavaxJson.java:617-625 | the object has exactly the entry keys, and a key takes the value of its last entry |
| JavaxJson.Obj.constructor | api/src/main/java/net/adamcin/oakpal/api/JavaxJson.java:552-556 | a new object has no entries |
| JavaxJson.Obj.Key | api/src/main/java/net/adamcin/oakpal/api/JavaxJson.java:606-609 | the entry is appended with the wrapped value; a dangling cursor fails and leaves the entries unchanged |
| JavaxJson.Obj.Opt | api/src/main/java/net/adamcin/oakpal/api/JavaxJson.java:473-480 | the entry is appended only when the wrapped value is non-empty |
| JavaxJson.Obj.OptOr | api/src/main/java/net/adamcin/oakpal/api/JavaxJson.java:482-490 | the entry is appended only when the wrapped value differs from the wrapped default |
| JavaxJson.Obj.Get | api/src/main/java/net/adamcin/oakpal/api/JavaxJson.java:617-625 | the result is an object whose keys are exactly the entry keys |
| JavaxJson.Obj.ArrKeys | api/src/main/java/net/adamcin/oakpal/api/JavaxJson.java:632-634 | the key of every entry in entry order, duplicates included |
| JavaxJson.Arr.constructor | api/src/main/java/net/adamcin/oakpal/api/JavaxJson.java:658-662 | a new array has no values |
| JavaxJson.Arr.Val | api/src/main/java/net/adamcin/oakpal/api/JavaxJson.java:675-678 | the wrapped value is appended; a dangling cursor fails and leaves the values unchanged |
| JavaxJson.Arr.Opt | api/src/main/java/net/adamcin/oakpal/api/JavaxJson.java:680-686 | the value is appended only when the wrapped value is non-empty |
| JavaxJson.Arr.OptOr | api/src/main/java/net/adamcin/oakpal/api/JavaxJson.java:688-695 | the value is appended only when the wrapped value differs from the wrapped default |
| JavaxJson.OptObject | api/src/main/java/net/adamcin/oakpal/api/JavaxJson.java:719-721 | present exactly when the key maps to an object, and then that object |
| JavaxJson.ObjectOrEmpty | api/src/main/java/net/adamcin/oakpal/api/JavaxJson.java:731-733 | the object under the key, or the empty object when the key holds no object |
| JavaxJson.OptArray | api/src/main/java/net/adamcin/oakpal/api/JavaxJson.java:743-745 | present exactly when the key maps to an array, and then that array |
| JavaxJson.ArrayOrEmpty | api/src/main/java/net/adamcin/oakpal/api/JavaxJson.java:754-756 | the array under the key, or the empty array when the key holds no array |
| JavaxJson.StringsOf | api/src/main/java/net/adamcin/oakpal/api/JavaxJson.java:792-800 | a string is kept exactly when the array holds it as a JSON string; a single element gives its string or nothing |
| JavaxJson.StringsOfAppend | api/src/main/java/net/adamcin/oakpal/api/JavaxJson.java:792-800 | the strings of two arrays joined are the first array's strings followed by the second's, so the array's order is kept |
| JavaxJson.ObjectsOf | api/src/main/java/net/adamcin/oakpal/api/JavaxJson.java:826-835 | an object is kept exactly when the array holds it; a single element gives its object or nothing |
| JavaxJson.ObjectsOfAppend | api/src/main/java/net/adamcin/oakpal/api/JavaxJson.java:826-835 | the objects of two arrays joined are the first array's objects followed by the second's, so the array's order is kept |
| JavaxJson.MapArrayOfStrings | api/src/main/java/net/adamcin/oakpal/api/JavaxJson.java:792-800 | a null array is empty; without discarding, the function is applied to each string in order; with discarding, the result is the undiscarded one with the null results dropped, in order |
| JavaxJson.MapArrayOfObjects | api/src/main/java/net/adamcin/oakpal/api/JavaxJson.java:826-835 | a null array is empty; without discarding, the function is applied to each object in order; with discarding, the result is the undiscarded one with the null results dropped, in order |
| JavaxJson.DropNone | api/src/main/java/net/adamcin/oakpal/api/JavaxJson.java:826-835 | every non-null result is kept and no null result remains; a single result is kept exactly when it is not null |
| JavaxJson.DropNoneAppend | api/src/main/java/net/adamcin/oakpal/api/JavaxJson.java:826-835 | dropping the nulls of two lists joined gives the first list's results followed by the second's, so the order is kept |
| JcrPropertyConstraints.FirstDenied | core/src/main/java/net/adamcin/oakpal/core/checks/JcrPropertyConstraints.java:192-204 | the index found is that of a denied value with no denied value before it, and none is found exactly when no value is denied |
| JcrPropertyConstraints.EvaluateNode | core/src/main/java/net/adamcin/oakpal/core/checks/JcrPropertyConstraints.java:160-208 | the method gives the violation for the first constraint the node breaks, or none |
| JcrPropertyConstraints.AbsentViolatesIff | core/src/main/java/net/adamcin/oakpal/core/checks/JcrPropertyConstraints.java:161-164 | an absent property is a violation exactly when absence is denied, and then it is reported as absent |
| JcrPropertyConstraints.PresentDeniedFirst | core/src/main/java/net/adamcin/oakpal/core/checks/JcrPropertyConstraints.java:166-168 | a present property whose presence is denied is reported as present whatever its values |
| JcrPropertyConstraints.MultivaluedOnlyMultiple | core/src/main/java/net/adamcin/oakpal/core/checks/JcrPropertyConstraints.java:172-174 | the multi-valued violation is reported exactly for a present multi-valued property, when presence is allowed and multiple values are denied |
| JcrPropertyConstraints.TypeMismatchOnlyRequired | core/src/main/java/net/adamcin/oakpal/core/checks/JcrPropertyConstraints.java:176-181 | a type mismatch needs a required type, and reports the property's type and the required one, which differ |
| JcrPropertyConstraints.ValueDeniedIff | core/src/main/java/net/adamcin/oakpal/core/checks/JcrPropertyConstraints.java:183-204 | once the other constraints pass, a value is reported exactly when some value is denied; it is the first such value, with its last matching rule's pattern |
| JcrPropertyConstraints.NoRulesAllowAll | core/src/main/java/net/adamcin/oakpal/core/checks/JcrPropertyConstraints.java:193-199 | with no value rules no value is denied |
| JsonCnd.ResidualRoundTrip | core/src/main/java/net/adamcin/oakpal/core/JsonCnd.java:230-256 | the residual name is written as * and * read back as the residual name whatever the resolver; any other name makes the round trip when the resolver does, and is never written as * |
| JsonCnd.LexCompareAntisymmetric | core/src/main/java/net/adamcin/oakpal/core/JsonCnd.java:264 | string comparison is zero exactly on equal strings and changes sign when its arguments are swapped |
| JsonCnd.LexCompareTransitive | core/src/main/java/net/adamcin/oakpal/core/JsonCnd.java:264 | string comparison is transitive |
| JsonCnd.PushResidualsOrder | core/src/main/java/net/adamcin/oakpal/core/JsonCnd.java:265-273 | on distinct strings the comparator is a strict total order that puts * after every other string and orders the rest as compareTo does |
| JsonCnd.StreamNsPrefix | core/src/main/java/net/adamcin/oakpal/core/JsonCnd.java:333-336 | at most one prefix is given |
| JsonCnd.SplitAllEmptyPieces | core/src/main/java/net/adamcin/oakpal/core/JsonCnd.java:333-336 | the pieces of a split are all empty exactly when the text is only separators, which is when the split drops every piece |
| JsonCnd.StreamNsPrefixCases | core/src/main/java/net/adamcin/oakpal/core/JsonCnd.java:333-336 | a name without a colon has no prefix; a name with one yields the text before its first colon exactly when something other than colons follows |
| JsonCnd.TypeDefinitionAttribute.LexTokens | core/src/main/java/net/adamcin/oakpal/core/JsonCnd.java:756-799 | every attribute has at least one token, the first being the one written |
| JsonCnd.UnknownNeverWritable | core/src/main/java/net/adamcin/oakpal/core/JsonCnd.java:793-798 | only UNKNOWN is not nonUnknown; it is never writable and reading it changes nothing, while any other attribute is writable once read |
| JsonCnd.FirstMatching | core/src/main/java/net/adamcin/oakpal/core/JsonCnd.java:836-845 | the attribute found has a token matching ignoring ASCII case, and UNKNOWN is given only when no attribute before it matches |
| JsonCnd.MatchesLower | core/src/main/java/net/adamcin/oakpal/core/JsonCnd.java:836-845 | matching a token ignoring ASCII case is the ASCII-lower-cased text being one of the tokens |
| JsonCnd.ForTokenIff | core/src/main/java/net/adamcin/oakpal/core/JsonCnd.java:836-845 | a known attribute is the one read for a token exactly when one of its tokens matches |
| JsonCnd.ForTokenProperties | core/src/main/java/net/adamcin/oakpal/core/JsonCnd.java:836-845 | reading a token ignores ASCII case, gives UNKNOWN exactly when no known attribute matches, and reads every token of an attribute back as that attribute |
| JsonCnd.LexTokenOwner | core/src/main/java/net/adamcin/oakpal/core/JsonCnd.java:836-845 | each token of an attribute is read back as that attribute |
| JsonCnd.WritableTokens | core/src/main/java/net/adamcin/oakpal/core/JsonCnd.java:823-828 | no more tokens are written than there are attributes |
| JsonCnd.ReadItemsWritable | core/src/main/java/net/adamcin/oakpal/core/JsonCnd.java:807-815 | reading an array without nulls throws nothing and makes a known attribute writable exactly when it was already or the array names it; UNKNOWN is never writable |
| JsonCnd.WritableMentioned | core/src/main/java/net/adamcin/oakpal/core/JsonCnd.java:823-828 | when exactly the named known attributes are writable, the tokens written are those of the named attributes in declaration order |
| JsonCnd.ReadThenWriteTokens | core/src/main/java/net/adamcin/oakpal/core/JsonCnd.java:807-828 | reading an array of tokens into a fresh definition and writing its attributes back gives the written token of each named attribute, once, in declaration order |
| JsonCnd.NodeTypeDefinitionBuilder.constructor | core/src/main/java/net/adamcin/oakpal/core/JsonCnd.java:807-815 | a fresh builder has the default flags |
| JsonCnd.NodeTypeDefinitionBuilder.ReadTo | core/src/main/java/net/adamcin/oakpal/core/JsonCnd.java:875-877 | the builder's flags become those after reading the attribute; UNKNOWN changes nothing |
| JsonCnd.NodeTypeDefinitionBuilder.ReadAttributes | core/src/main/java/net/adamcin/oakpal/core/JsonCnd.java:807-815 | the builder's flags and the exception are those of reading the array's elements in order, stopping at a null |
| NamespaceMappingRequests.NewRequest | core/src/main/java/net/adamcin/oakpal/core/NamespaceMappingRequest.java:29-36 | a prefix or URI is kept exactly when it was asked for and either built-ins are retained or it is not a built-in one |
| NamespaceMappingRequests.JcrNameRetention | core/src/main/java/net/adamcin/oakpal/core/NamespaceMappingRequest.java:105-114 | a name starting with a brace whose first closing brace is after index 1 retains the text between them as a URI; any other name retains the prefix streamNsPrefix gives, if any |
| NamespaceMappingRequests.ExpandedNameRetainsUri | core/src/main/java/net/adamcin/oakpal/core/NamespaceMappingRequest.java:105-110 | an expanded name with a non-empty URI retains that URI |
| NamespaceMappingRequests.EmptyUriRetainsNothing | core/src/main/java/net/adamcin/oakpal/core/NamespaceMappingRequest.java:105-114 | an expanded name with an empty URI and no colon retains nothing |
| NamespaceMappingRequests.PrefixedNameRetainsPrefix | core/src/main/java/net/adamcin/oakpal/core/NamespaceMappingRequest.java:110-113 | a prefixed name retains its prefix when something other than colons follows the colon |
| NamespaceMappingRequests.ResolvePrefix | core/src/main/java/net/adamcin/oakpal/core/NamespaceMappingRequest.java:136-138 | a prefix resolves exactly when the mapping has a URI for it |
| NamespaceMappingRequests.ResolveUri | core/src/main/java/net/adamcin/oakpal/core/NamespaceMappingRequest.java:144-146 | a URI resolves exactly when the mapping has a prefix for it |
| NamespaceMappingRequests.PrefixResults | core/src/main/java/net/adamcin/oakpal/core/NamespaceMappingRequest.java:135-140 | one result per retained prefix |
| NamespaceMappingRequests.UriResults | core/src/main/java/net/adamcin/oakpal/core/NamespaceMappingRequest.java:141-147 | at most one result per retained URI |
| NamespaceMappingRequests.ResolveToJcrNs | core/src/main/java/net/adamcin/oakpal/core/NamespaceMappingRequest.java:133-149 | the method gives the prefix results, then the results of the URIs no prefix resolved to |
| NamespaceMappingRequests.PrefixResultsAt | core/src/main/java/net/adamcin/oakpal/core/NamespaceMappingRequest.java:135-140 | each prefix result is the resolution of the prefix at that position |
| NamespaceMappingRequests.RetainedUrisOfPrefixes | core/src/main/java/net/adamcin/oakpal/core/NamespaceMappingRequest.java:135-146 | a URI is skipped by the URI phase exactly when one of the prefixes resolved to it |
| NamespaceMappingRequests.UriResultsHold | core/src/main/java/net/adamcin/oakpal/core/NamespaceMappingRequest.java:141-147 | the URI phase holds a URI's result exactly when the URI is retained and not skipped, and nothing else |
| NamespaceMappingRequests.ResolutionProperties | core/src/main/java/net/adamcin/oakpal/core/NamespaceMappingRequest.java:133-149 | every prefix gives its result first and in order; a URI gives a result exactly when no prefix resolved to it; an unresolvable entry is a failure, not dropped; only an empty request gives no result |
| NamespaceMappingRequests.Builder.constructor | core/src/main/java/net/adamcin/oakpal/core/NamespaceMappingRequest.java:44-47 | a new builder retains nothing and drops built-ins |
| NamespaceMappingRequests.Builder.WithRetainPrefix | core/src/main/java/net/adamcin/oakpal/core/NamespaceMappingRequest.java:55-58 | the prefix is added to the retained set |
| NamespaceMappingRequests.Builder.WithRetainUri | core/src/main/java/net/adamcin/oakpal/core/NamespaceMappingRequest.java:66-69 | the URI is added to the retained set |
| NamespaceMappingRequests.Builder.WithRetainBuiltins | core/src/main/java/net/adamcin/oakpal/core/NamespaceMappingRequest.java:79-82 | the flag is set as given |
| NamespaceMappingRequests.Builder.WithQName | core/src/main/java/net/adamcin/oakpal/core/NamespaceMappingRequest.java:90-95 | the name's URI is retained unless it is the default namespace |
| NamespaceMappingRequests.Builder.WithJCRName | core/src/main/java/net/adamcin/oakpal/core/NamespaceMappingRequest.java:105-114 | the URI or prefix the name retains is added to the matching set |
| NamespaceMappingRequests.Builder.Build | core/src/main/java/net/adamcin/oakpal/core/NamespaceMappingRequest.java:121-123 | the request built is the filtered one for the builder's sets and flag |
| NamespaceMappingRequests.EmptyBuilderResolvesEmpty | core/src/main/java/net/adamcin/oakpal/core/NamespaceMappingRequest.java:133-149 | a request built from nothing resolves to no result |
| NamespaceMappingRequests.BuiltinPrefixDropped | core/src/main/java/net/adamcin/oakpal/core/NamespaceMappingRequest.java:29-36 | the built-in jcr prefix is dropped unless built-ins are retained |
| OakMachines.NotValid | core/src/main/java/net/adamcin/oakpal/core/OakMachine.java:444-447 | an invalid package throws a `PackageException`, one of the failures the engine catches, whose message is "Package is not valid: " followed by the package id |
| OakMachines.Ids | core/src/main/java/net/adamcin/oakpal/core/OakMachine.java:442 | the ids handed to `beforeExtract` are the extracted subpackages' ids, one per subpackage, in extraction order |
| OakMachines.Complaint | core/src/main/java/net/adamcin/oakpal/core/OakMachine.java:450-457 | an exception caught at a guarded event is reported to the error listener for that check and package, with the path for a path event |
| OakMachines.Reports | core/src/main/java/net/adamcin/oakpal/core/OakMachine.java:378-387 | the error listener's report first, then one report per check in list order |
| OakMachines.ReactionsOutcome | core/src/main/java/net/adamcin/oakpal/core/OakMachine.java:450-457 | a `forEach` broadcast completes exactly when no check before the end lets an exception escape; otherwise it ends with the notification of the first check whose exception escapes and throws that exception |
| OakMachines.ReactionsComplete | core/src/main/java/net/adamcin/oakpal/core/OakMachine.java:450-457 | a broadcast completes exactly when it gets past every check |
| OakMachines.ReactionsFailureEnds | core/src/main/java/net/adamcin/oakpal/core/OakMachine.java:450-457 | once an exception escapes a check, no later check hears the event |
| OakMachines.ReactionsInOrder | core/src/main/java/net/adamcin/oakpal/core/OakMachine.java:450-457 | a broadcast notifies each check at most once and in list order, and check i exactly when no exception escaped a check before it |
| OakMachines.ReactionsOnlyReportFailures | core/src/main/java/net/adamcin/oakpal/core/OakMachine.java:450-457 | a broadcast adds nothing but notifications and the reports of checks whose exceptions were caught there |
| OakMachines.ReactionsReportEachFailure | core/src/main/java/net/adamcin/oakpal/core/OakMachine.java:450-457 | at a guarded event a check is reported to the error listener exactly when the broadcast gets to it and its exception is one the catch there takes |
| OakMachines.CaughtBroadcastCompletes | core/src/main/java/net/adamcin/oakpal/core/OakMachine.java:503-509 | a broadcast inside `catch (Exception e)` (identifyPackage, importedPath, deletedPath) always completes |
| OakMachines.UncaughtReachesAll | core/src/main/java/net/adamcin/oakpal/core/OakMachine.java:356 | where no catch surrounds the handlers (startedScan, finishedScan, identifySubpackage), the broadcast gets past every check exactly when no check throws |
| OakMachines.MessageClassified | core/src/main/java/net/adamcin/oakpal/core/OakMachine.java:605-633 | an absolute path with action "D" or "!" notifies every check of a deleted path, any other action notifies of an imported path once the node is read, an unreadable node goes to the error listener, and nothing is heard of a pre-install package |
| OakMachines.MessagePathEvents | core/src/main/java/net/adamcin/oakpal/core/OakMachine.java:605-638 | a message notifies the checks only of the package's own paths, and never for a pre-install package |
| OakMachines.MessagesArePathEvents | core/src/main/java/net/adamcin/oakpal/core/OakMachine.java:588-638 | all of the importer's messages for a package notify only of that package's paths |
| OakMachines.AllMessagesEvents | core/src/main/java/net/adamcin/oakpal/core/OakMachine.java:588-638 | the importer's messages add only path events of the package |
| OakMachines.AnnouncementEvents | core/src/main/java/net/adamcin/oakpal/core/OakMachine.java:449-473 | package-event broadcasts add only package events, and nothing for a pre-install package |
| OakMachines.PackageRunEvents | core/src/main/java/net/adamcin/oakpal/core/OakMachine.java:429-478 | processing a package tells the checks only of package events, and nothing at all for a pre-install package or its subpackages |
| OakMachines.SubpackagesRunEvents | core/src/main/java/net/adamcin/oakpal/core/OakMachine.java:475-477 | the subpackage loop tells the checks only of package events, and nothing in pre-install |
| OakMachines.SubpackageRunEvents | core/src/main/java/net/adamcin/oakpal/core/OakMachine.java:480-492 | processing a subpackage tells the checks only of package events, and nothing in pre-install |
| OakMachines.FileRunEvents | core/src/main/java/net/adamcin/oakpal/core/OakMachine.java:494-516 | processing a package file tells the checks only of package events, and nothing in pre-install |
| OakMachines.FilesRunEvents | core/src/main/java/net/adamcin/oakpal/core/OakMachine.java:352-361 | the files loops tell the checks only of package events, and nothing in pre-install |
| OakMachines.PackageRunOutcome | core/src/main/java/net/adamcin/oakpal/core/OakMachine.java:429-478 | a package throws what extracting its subpackages throws; failing that an invalid package throws the "not valid" exception; it completes exactly when, besides, both announcements, the extraction and every subpackage complete; an extraction that throws after the announcement ends it with that exception |
| OakMachines.FileRunOutcome | core/src/main/java/net/adamcin/oakpal/core/OakMachine.java:494-516 | a file completes exactly when it was uploaded and its package completed; an IO, package or repository exception becomes `AbortedScanException`, anything else (a `NullPointerException` for a `null` upload included) escapes as itself |
| OakMachines.SequenceCompletes | core/src/main/java/net/adamcin/oakpal/core/OakMachine.java:352-361 | one-after-another processing completes exactly when every step does |
| OakMachines.SequenceFailureEnds | core/src/main/java/net/adamcin/oakpal/core/OakMachine.java:352-361 | once a step throws, later steps change nothing |
| OakMachines.SequenceEvents | core/src/main/java/net/adamcin/oakpal/core/OakMachine.java:352-361 | one-after-another processing keeps the events its steps tell |
| OakMachines.FilesRunCompletes | core/src/main/java/net/adamcin/oakpal/core/OakMachine.java:352-361 | the files loop completes exactly when every file completed |
| OakMachines.FailureEndsFiles | core/src/main/java/net/adamcin/oakpal/core/OakMachine.java:352-361 | once a file throws, no later file is processed |
| OakMachines.SubpackageFailureEnds | core/src/main/java/net/adamcin/oakpal/core/OakMachine.java:475-477 | once an exception escapes a subpackage, no later subpackage is processed |
| OakMachines.PackageEventOrder | core/src/main/java/net/adamcin/oakpal/core/OakMachine.java:429-478 | a completed package tells the checks, in order: its subpackage extraction paths, beforeExtract with the subpackage ids, its own paths, afterExtract, then everything about its subpackages |
| OakMachines.SubpackageEntriesAt | core/src/main/java/net/adamcin/oakpal/core/OakMachine.java:475-477 | the k-th entry list is subpackage k's own run |
| OakMachines.SubpackagesComplete | core/src/main/java/net/adamcin/oakpal/core/OakMachine.java:475-477 | the subpackage loop completes exactly when every subpackage's run does |
| OakMachines.SubpackagesDepthFirst | core/src/main/java/net/adamcin/oakpal/core/OakMachine.java:475-477 | a completed subpackage loop is each subpackage's full run, its own subpackages included, one after another in extraction order |
| OakMachines.IdentifiedFirst | core/src/main/java/net/adamcin/oakpal/core/OakMachine.java:480-516 | a check hears identifyPackage or identifySubpackage before anything else about a package; a file that cannot be uploaded tells nobody anything; a subpackage that cannot be opened is reported when the failure is an IO, package or repository exception and otherwise throws; a subpackage `open` returns `null` for is announced and then throws a `NullPointerException` |
| OakMachines.SubpackageFailureReported | core/src/main/java/net/adamcin/oakpal/core/OakMachine.java:480-492 | a subpackage that throws an IO, package or repository exception is reported to the error listener, last, and its parent carries on; any other exception escapes unreported |
| OakMachines.ScanBodyUnfinished | core/src/main/java/net/adamcin/oakpal/core/OakMachine.java:337-362 | the body of a scan never tells a check that the scan finished |
| OakMachines.FinishedEveryCheck | core/src/main/java/net/adamcin/oakpal/core/OakMachine.java:366-376 | after any body, the error listener is started first, it is finished last exactly when no check throws on finishedScan, each check hears finishedScan exactly when no check before it threw there, and only the end of the scan follows |
| OakMachines.ScanFinishesEveryCheck | core/src/main/java/net/adamcin/oakpal/core/OakMachine.java:332-376 | the same of the whole scan, however its body ended |
| OakMachines.StartedFirstWhenSetUp | core/src/main/java/net/adamcin/oakpal/core/OakMachine.java:332-362 | after set-up, pre-install and the start of the checks complete, every check hears startedScan before any package |
| OakMachines.BodyStartsChecksFirst | core/src/main/java/net/adamcin/oakpal/core/OakMachine.java:337-362 | within the body of a scan every check hears startedScan before it hears of any package |
| OakMachines.FinishedKeepsStartFirst | core/src/main/java/net/adamcin/oakpal/core/OakMachine.java:366-376 | finishing the scan tells no check of a package |
| OakMachines.ScanStartsChecksFirst | core/src/main/java/net/adamcin/oakpal/core/OakMachine.java:332-376 | every check hears startedScan before it hears of any package |
| OakMachines.ScanBodyCompletes | core/src/main/java/net/adamcin/oakpal/core/OakMachine.java:337-362 | the body of a scan completes exactly when set-up, every pre-install package, the startedScan broadcast and every file complete |
| OakMachines.FinishedOutcome | core/src/main/java/net/adamcin/oakpal/core/OakMachine.java:364-387 | after a body, the scan returns the reports exactly when the body completed and no check threw on finishedScan; an exception from finishedScan (the first such check's) replaces whatever the body threw; otherwise a repository exception becomes `AbortedScanException` and anything else escapes as itself |
| OakMachines.ScanOutcome | core/src/main/java/net/adamcin/oakpal/core/OakMachine.java:332-388 | the scan returns the reports exactly when set-up, every pre-install package, startedScan, every file and finishedScan complete; what it throws otherwise is as for `FinishedOutcome` |
| OakMachines.OakMachine.constructor | core/src/main/java/net/adamcin/oakpal/core/OakMachine.java:89-101 | a machine over the given checks with an empty trace |
| OakMachines.OakMachine.Notify | core/src/main/java/net/adamcin/oakpal/core/OakMachine.java:450-457 | the trace grows by exactly the broadcast of the event, and the result is what escapes it |
| OakMachines.OakMachine.React | core/src/main/java/net/adamcin/oakpal/core/OakMachine.java:450-457 | the trace grows by one check's reaction: it hears the event, an exception caught there is reported to the error listener, any other is returned |
| OakMachines.OakMachine.Announce | core/src/main/java/net/adamcin/oakpal/core/OakMachine.java:449-473 | the trace grows by the broadcast, or by nothing in pre-install, and the result is what escapes it |
| OakMachines.OakMachine.OnMessage | core/src/main/java/net/adamcin/oakpal/core/OakMachine.java:605-638 | the trace grows by exactly the entries of the message |
| OakMachines.OakMachine.Track | core/src/main/java/net/adamcin/oakpal/core/OakMachine.java:588-638 | the trace grows by the entries of all the importer's messages |
| OakMachines.OakMachine.ProcessPackage | core/src/main/java/net/adamcin/oakpal/core/OakMachine.java:429-478 | the trace grows by the package's run and the result is what the package throws, if anything |
| OakMachines.OakMachine.ProcessSubpackages | core/src/main/java/net/adamcin/oakpal/core/OakMachine.java:475-477 | the trace grows by the runs of the extracted subpackages, in order, up to the first that throws |
| OakMachines.OakMachine.ProcessSubpackage | core/src/main/java/net/adamcin/oakpal/core/OakMachine.java:480-492 | the trace grows by the subpackage's run and the result is what escapes its catch |
| OakMachines.OakMachine.ProcessPackageFile | core/src/main/java/net/adamcin/oakpal/core/OakMachine.java:494-516 | the trace grows by the file's run and the result is what it throws |
| OakMachines.OakMachine.ProcessFiles | core/src/main/java/net/adamcin/oakpal/core/OakMachine.java:352-361 | the loop stops at the first file that throws and the trace grows by exactly the files' run |
| OakMachines.OakMachine.ProcessFileAt | core/src/main/java/net/adamcin/oakpal/core/OakMachine.java:359-361 | one more file after the first `k` completed: the trace and the outcome become those of the first `k + 1` files |
| OakMachines.OakMachine.RunScanBody | core/src/main/java/net/adamcin/oakpal/core/OakMachine.java:337-362 | the trace grows by the body of a scan (the pre-install files, the startedScan broadcast, the files) and the result is what the body throws, if anything |
| OakMachines.OakMachine.ScanPackages | core/src/main/java/net/adamcin/oakpal/core/OakMachine.java:332-388 | the trace grows by the scan's run, finishedScan and the error listener's end included however the body ended, and the result is the scan's outcome |
| OpearFiles.HeaderValues | core/src/main/java/net/adamcin/oakpal/core/OpearFile.java:143 | a header missing from the manifest has no values |
| OpearFiles.StripLeadingSlash | core/src/main/java/net/adamcin/oakpal/core/OpearFile.java:147 | at most one leading slash is removed, and one is removed whenever the path starts with a slash |
| OpearFiles.ValidateUri | core/src/main/java/net/adamcin/oakpal/core/OpearFile.java:145-153 | a value is accepted exactly when it parses as a URI whose normalised path, without its leading slash, is neither .. nor starts with ../; a value that is not a URI is a URISyntaxException |
| OpearFiles.ValidateUriHeaderValuesProperties | core/src/main/java/net/adamcin/oakpal/core/OpearFile.java:140-162 | the header validates exactly when every value does, giving the validated values in order, none climbing out of the opear; otherwise the error is the first failing value's; a missing header gives no values |
| OpearFiles.ValidateUriHeaderValuesWithDefault | core/src/main/java/net/adamcin/oakpal/core/OpearFile.java:130-138 | a missing header gives the default values; a present one is validated |
| OpearFiles.ValidateOpearManifestProperties | core/src/main/java/net/adamcin/oakpal/core/OpearFile.java:164-182 | a manifest is accepted exactly when present, naming its bundle, and both headers validate; the class path then defaults to . and the default plan is the empty one; a missing bundle name is the failure |
| OpearFiles.AcceptedManifestStaysInside | core/src/main/java/net/adamcin/oakpal/core/OpearFile.java:164-182 | no plan or class path entry of an accepted manifest climbs out of the opear |
| OpearFiles.MetaForSimpleDir | core/src/main/java/net/adamcin/oakpal/core/OpearFile.java:122-128 | a simple directory loads classes from . with the basic plan as default, and exports its plan file exactly when it exists |
| OpearFiles.OpearFile.SpecificPlan | core/src/main/java/net/adamcin/oakpal/core/OpearFile.java:87-93 | a missing plan fails with a message naming it |
| OpearFiles.PlanLookup | core/src/main/java/net/adamcin/oakpal/core/OpearFile.java:79-93 | a specific plan is found exactly when it is exported, as the opear's file of that name; the default plan is the first exported one, else the basic plan for a simple directory and the empty plan otherwise |
| OpearFiles.PlanClassLoaderEntries | core/src/main/java/net/adamcin/oakpal/core/OpearFile.java:95-112 | the class loader is the parent exactly when no class path entry is a directory or a jar; otherwise it loads only from such entries of the opear |
| OpearFiles.FromDirectoryProperties | core/src/main/java/net/adamcin/oakpal/core/OpearFile.java:184-197 | a directory without a manifest is always an opear loading from itself, with its plan file or the basic plan as default; with a manifest it is one exactly when the manifest reads and validates |
| PackageGraphs.Without | core/src/main/java/net/adamcin/oakpal/core/checks/PackageGraph.java:78-79 | removing children from a list keeps exactly the others and keeps a duplicate-free list duplicate-free |
| PackageGraphs.DescendantTransitive | core/src/main/java/net/adamcin/oakpal/core/checks/PackageGraph.java:184-191 | being a left descendant is transitive |
| PackageGraphs.DescendantMonotone | core/src/main/java/net/adamcin/oakpal/core/checks/PackageGraph.java:184-191 | a descent that only uses links kept in a larger graph holds there too |
| PackageGraphs.SelfAndAncestors | core/src/main/java/net/adamcin/oakpal/core/checks/PackageGraph.java:199-204 | the list starts with the package itself |
| PackageGraphs.AncestorsChain | core/src/main/java/net/adamcin/oakpal/core/checks/PackageGraph.java:199-204 | each listed package is the parent of the one before, and the last is a root |
| PackageGraphs.AncestorsExactly | core/src/main/java/net/adamcin/oakpal/core/checks/PackageGraph.java:199-214 | the ancestors listed are exactly the packages the node is a left descendant of |
| PackageGraphs.SelfAndDescendants | core/src/main/java/net/adamcin/oakpal/core/checks/PackageGraph.java:222-225 | the list starts with the package itself |
| PackageGraphs.DescendantsSound | core/src/main/java/net/adamcin/oakpal/core/checks/PackageGraph.java:222-225 | everything listed as a descendant is a left descendant of the package |
| PackageGraphs.ChildListed | core/src/main/java/net/adamcin/oakpal/core/checks/PackageGraph.java:222-225 | the children of a listed package are listed too |
| PackageGraphs.DescendantsExactly | core/src/main/java/net/adamcin/oakpal/core/checks/PackageGraph.java:222-235 | with consistent child maps, the descendants listed are exactly the left descendants of the package |
| PackageGraphs.DetachKeepsDescentTo | core/src/main/java/net/adamcin/oakpal/core/checks/PackageGraph.java:86-88 | detaching a node from its parent changes no other node's descent to it |
| PackageGraphs.CutsOnTheWay | core/src/main/java/net/adamcin/oakpal/core/checks/PackageGraph.java:73-83 | the ancestor walk cuts a link exactly when the new parent descends from the node, and then cuts only the one link from the node's child on the way |
| PackageGraphs.NotDescendantAfterCuts | core/src/main/java/net/adamcin/oakpal/core/checks/PackageGraph.java:73-83 | after the cut the new parent no longer descends from the node, so the new link closes no cycle |
| PackageGraphs.SetParentKeepsRanked | core/src/main/java/net/adamcin/oakpal/core/checks/PackageGraph.java:85-94 | setParent keeps the parent links free of cycles (corrected definition, Findings row 1) |
| PackageGraphs.SetParentLinksSub | core/src/main/java/net/adamcin/oakpal/core/checks/PackageGraph.java:85-94 | every link left is an old link, except the node's new link to its parent (corrected definition, Findings row 1) |
| PackageGraphs.SetParentKeepsConsistent | core/src/main/java/net/adamcin/oakpal/core/checks/PackageGraph.java:85-94 | after setParent every child is listed exactly once, in its parent's children (corrected definition, Findings row 1) |
| PackageGraphs.SetParentAttaches | core/src/main/java/net/adamcin/oakpal/core/checks/PackageGraph.java:85-94 | a node given another node as parent gets that parent; a node given no parent is a root; a node given itself is a root (corrected definition, Findings row 1: the source throws NullPointerException there, SetParentSelfThrowsAsWritten) |
| PackageGraphs.SetParentCutsOnlyTheCycle | core/src/main/java/net/adamcin/oakpal/core/checks/PackageGraph.java:73-94 | only the link that would close a cycle is cut, and one is cut exactly when the new parent descends from the node |
| PackageGraphs.SetParentSelfThrowsAsWritten | core/src/main/java/net/adamcin/oakpal/core/checks/PackageGraph.java:85-94 | as written, making a node its own parent throws a NullPointerException |
| PackageGraphs.SetParentSelfDetaches | core/src/main/java/net/adamcin/oakpal/core/checks/PackageGraph.java:85-94 | corrected, a node made its own parent is only detached |
| PackageGraphs.SetParentAsWrittenElsewhere | core/src/main/java/net/adamcin/oakpal/core/checks/PackageGraph.java:85-94 | for any other parent the corrected setParent agrees with the original |
| PackageGraphs.EmbeddedSelf | core/src/main/java/net/adamcin/oakpal/core/checks/PackageGraph.java:137-145 | the package identified is the installable's embedded id when there is an installable, else the given id |
| PackageGraphs.EmbeddedParent | core/src/main/java/net/adamcin/oakpal/core/checks/PackageGraph.java:137-145 | the parent is the installable's parent id when there is an installable, else the given parent |
| PackageGraphs.PackageGraph.constructor | core/src/main/java/net/adamcin/oakpal/core/checks/PackageGraph.java:42-98 | an empty graph with nothing identified |
| PackageGraphs.PackageGraph.GetReportedViolations | core/src/main/java/net/adamcin/oakpal/core/checks/PackageGraph.java:108-110 | the graph reports no violations |
| PackageGraphs.PackageGraph.StartedScan | core/src/main/java/net/adamcin/oakpal/core/checks/PackageGraph.java:113-116 | every identified package and every link is forgotten, so every package is an unidentified root |
| PackageGraphs.PackageGraph.RemoveAncestor | core/src/main/java/net/adamcin/oakpal/core/checks/PackageGraph.java:73-83 | the walk up from a node cuts exactly the links to the ancestor found on the way |
| PackageGraphs.PackageGraph.SetParent | core/src/main/java/net/adamcin/oakpal/core/checks/PackageGraph.java:85-94 | the graph becomes the corrected setParent links of Findings row 1 and stays acyclic and consistent; the source differs only for a node given itself as parent, where it throws NullPointerException |
| PackageGraphs.PackageGraph.IdentifyPackage | core/src/main/java/net/adamcin/oakpal/core/checks/PackageGraph.java:119-126 | a given package is appended to the identified list, becomes a root and is the last identified; a null id changes nothing |
| PackageGraphs.PackageGraph.IdentifySubpackage | core/src/main/java/net/adamcin/oakpal/core/checks/PackageGraph.java:129-134 | a subpackage with another package as parent is recorded and becomes a non-root descendant of that parent; one named as its own parent is recorded as a root (corrected definition, Findings row 1: the source throws NullPointerException there); a null id changes nothing |
| PackageGraphs.PackageGraph.IdentifyEmbeddedPackage | core/src/main/java/net/adamcin/oakpal/core/checks/PackageGraph.java:137-145 | as identifySubpackage, with the installable's ids taking precedence (corrected setParent of Findings row 1 when the two ids are equal) |
| PackageGraphs.PackageGraph.GetLastIdentified | core/src/main/java/net/adamcin/oakpal/core/checks/PackageGraph.java:163-165 | null exactly before any package is identified; otherwise the last identified package |
| PackageGraphs.DescendantRaisesRank | core/src/main/java/net/adamcin/oakpal/core/checks/PackageGraph.java:184-191 | a proper ancestor ranks strictly higher than its descendant |
| PackageGraphs.DescendantAntisymmetric | core/src/main/java/net/adamcin/oakpal/core/checks/PackageGraph.java:184-191 | two packages that descend from each other are the same package |
| PackageGraphs.PackageGraph.IsLeftDescendantOfRight | core/src/main/java/net/adamcin/oakpal/core/checks/PackageGraph.java:184-191 | a package descends from itself and otherwise exactly from what its parent descends from, a root from nothing else; two distinct packages never descend from each other |
| PackageGraphs.PackageGraph.GetSelfAndAncestors | core/src/main/java/net/adamcin/oakpal/core/checks/PackageGraph.java:212-214 | the package, then exactly the packages it descends from |
| PackageGraphs.PackageGraph.GetSelfAndDescendants | core/src/main/java/net/adamcin/oakpal/core/checks/PackageGraph.java:233-235 | the package, then exactly the packages that descend from it |
| ChecklistPlanning.RemainingUnmatched | core/src/main/java/net/adamcin/oakpal/core/ChecklistPlanner.java:80-91 | every checklist left inactive was constructed and matches no non-empty active id |
| ChecklistPlanning.SelectedMatched | core/src/main/java/net/adamcin/oakpal/core/ChecklistPlanner.java:80-96 | every selected checklist was constructed and is matched, by name or by module name and name, by some non-empty active id |
| ChecklistPlanning.SelectionPartitions | core/src/main/java/net/adamcin/oakpal/core/ChecklistPlanner.java:80-91 | selection splits the constructed checklists into selected and inactive with none lost or repeated |
| ChecklistPlanning.Distinct | core/src/main/java/net/adamcin/oakpal/core/ChecklistPlanner.java:44-51 | the active ids are held once each, and exactly the ids given are held |
| ChecklistPlanning.DistinctFirstSeen | core/src/main/java/net/adamcin/oakpal/core/ChecklistPlanner.java:44-51 | the ids are held in the order they are first seen: the distinct ids of any prefix of the list come first, in the same order |
| ChecklistPlanning.ApplyOverrides | core/src/main/java/net/adamcin/oakpal/core/ChecklistPlanner.java:174-177 | a check under overrides keeps its name and template, each override overlaying the result so far (corrected definition, Findings row 6: as written the check's own config wins and the override's name is taken, ApplyOverridesAsWrittenLosesOverride) |
| ChecklistPlanning.ApplyOverridesSkip | core/src/main/java/net/adamcin/oakpal/core/ChecklistPlanner.java:174-177 | the check ends up skipped exactly when it or some matching override is skipped; with no matching override it is unchanged (corrected definition, Findings row 6) |
| ChecklistPlanning.ApplyOverridesKeepsImplementation | core/src/main/java/net/adamcin/oakpal/core/ChecklistPlanner.java:174-177 | abstract overrides never change a check's impl, inline script or engine |
| ChecklistPlanning.ApplyOverridesKeepsBaseConfig | core/src/main/java/net/adamcin/oakpal/core/ChecklistPlanner.java:174-177 | a config key no matching override sets keeps the check's own value (corrected definition, Findings row 6) |
| ChecklistPlanning.LastOverrideConfigWins | core/src/main/java/net/adamcin/oakpal/core/ChecklistPlanner.java:174-177 | a config key of the last matching override takes that override's value (corrected definition, Findings row 6) |
| ChecklistPlanning.FoundOverrideMatches | core/src/main/java/net/adamcin/oakpal/core/ChecklistPlanner.java:174-177 | the short-named override "foo" matches the prefixed check "alpha/foo" |
| ChecklistPlanning.ApplyOverridesAsWrittenLosesOverride | core/src/main/java/net/adamcin/oakpal/core/ChecklistPlanner.java:174-177 | as written, the reduction renames "alpha/foo" to "foo" and keeps the check's own value against the override; the corrected composition keeps the name and takes the override's value |
| ChecklistPlanning.Overlaid | core/src/main/java/net/adamcin/oakpal/core/ChecklistPlanner.java:118-130 | the accumulated specs are unskipped and have pairwise distinct names |
| ChecklistPlanning.OverlaidFirstWins | core/src/main/java/net/adamcin/oakpal/core/ChecklistPlanner.java:118-130 | each accumulated spec is the first unskipped spec of its name, and every unskipped name is represented |
| ChecklistPlanning.ExtraFor | core/src/main/java/net/adamcin/oakpal/core/ChecklistPlanner.java:135-169 | a skipped override, or one that already overrides an accumulated spec, contributes nothing; a contribution has an impl and is not skipped |
| ChecklistPlanning.Extras | core/src/main/java/net/adamcin/oakpal/core/ChecklistPlanner.java:135-169 | every contribution from the overrides has an impl and is not skipped |
| ChecklistPlanning.OverriddenChecks | core/src/main/java/net/adamcin/oakpal/core/ChecklistPlanner.java:118-122 | every selected check in order with the overrides applied (corrected ApplyOverrides, Findings row 6) |
| ChecklistPlanning.EffectiveCheckSpecs | core/src/main/java/net/adamcin/oakpal/core/ChecklistPlanner.java:112-172 | no effective spec is skipped (overrides applied by the corrected ApplyOverrides, Findings row 6) |
| ChecklistPlanning.EffectiveSelectedChecks | core/src/main/java/net/adamcin/oakpal/core/ChecklistPlanner.java:112-172 | the leading effective specs have distinct names and each is a selected check with overrides applied; the rest all have an impl (corrected definition, Findings row 6) |
| ChecklistPlanning.OverlaidFromSelected | core/src/main/java/net/adamcin/oakpal/core/ChecklistPlanner.java:112-130 | each spec kept by the first loop is a selected check with the overrides applied (corrected definition, Findings row 6) |
| ChecklistPlanning.SelectionLoop | core/src/main/java/net/adamcin/oakpal/core/ChecklistPlanner.java:80-91 | the loop over active ids computes exactly the selected and the remaining checklists |
| ChecklistPlanning.ChecklistPlanner.constructor | core/src/main/java/net/adamcin/oakpal/core/ChecklistPlanner.java:48-52 | the planner holds the distinct active ids and no checklists |
| ChecklistPlanning.ChecklistPlanner.SelectChecklists | core/src/main/java/net/adamcin/oakpal/core/ChecklistPlanner.java:80-91 | the selected checklists and the left-over ones are appended to the planner's two lists |
| ChecklistPlanning.ChecklistPlanner.GetEffectiveCheckSpecs | core/src/main/java/net/adamcin/oakpal/core/ChecklistPlanner.java:112-172 | the two loops return exactly the effective specs of the selected, inactive and all checks under the overrides, a null override list counting as empty (corrected ApplyOverrides, Findings row 6) |
| QNames.BuiltinMappingsInverse | core/src/main/java/net/adamcin/oakpal/core/QName.java:47-71 | the built-in prefixes and URIs (empty, jcr, nt, xml, mix, rep, sv, xmlns, oak) map to each other in both directions |
| QNames.ParseQName | core/src/main/java/net/adamcin/oakpal/core/QName.java:92-121 | a name is parsed exactly when it has a colon, or starts with a brace and has a closing brace; anything else is null |
| QNames.ParsePrefixed | core/src/main/java/net/adamcin/oakpal/core/QName.java:93-105 | any colon splits the name at its first colon into prefix and local name, the URI looked up for the prefix; an unknown prefix gives a null URI rather than an error |
| QNames.ParseExpanded | core/src/main/java/net/adamcin/oakpal/core/QName.java:106-118 | without a colon, the brace form takes the URI between the braces, the local name after them, and the prefix mapped to the URI |
| QNames.PrefixedRoundTrip | core/src/main/java/net/adamcin/oakpal/core/QName.java:152-158 | printing a prefixed name and parsing it back gives the same name when its prefix maps to its URI |
| QNames.ExpandedRoundTrip | core/src/main/java/net/adamcin/oakpal/core/QName.java:160-162 | printing a name without prefix in the brace form and parsing it back gives the same name when the URI has no colon or closing brace and no prefix |
| QNames.ExpandedWithColonSplits | core/src/main/java/net/adamcin/oakpal/core/QName.java:93-97 | the brace form of a URI with a colon is split at that colon, the opening brace becoming part of the prefix |
| QNames.EqualsAsWritten | core/src/main/java/net/adamcin/oakpal/core/QName.java:165-172 | the same object is equal to itself; otherwise equals throws NullPointerException exactly when the types and local names agree and this name has no URI, and any answer it gives is true exactly when type, local name and URI all agree |
| QNames.UnknownPrefixEqualsThrows | core/src/main/java/net/adamcin/oakpal/core/QName.java:165-172 | two parses of a prefixed name whose prefix the mapping does not know (foo:bar without foo) have no URI, and comparing them throws instead of answering true |
| QNames.EqualsContract | core/src/main/java/net/adamcin/oakpal/core/QName.java:165-177 | equality is reflexive, symmetric and transitive, ignores the prefix, agrees with the hash key, and agrees with the code as written wherever that answers |
| ReportMappers.OptString | core/src/main/java/net/adamcin/oakpal/core/ReportMapper.java:113-115 | an absent or null key gives the default; a string gives its text |
| ReportMappers.OptArray | core/src/main/java/net/adamcin/oakpal/core/ReportMapper.java:101 | an array is given exactly when the key holds one |
| ReportMappers.Objects | core/src/main/java/net/adamcin/oakpal/core/ReportMapper.java:89-92 | the objects kept are among the items, no more of them than items |
| ReportMappers.ObjectsAppend | core/src/main/java/net/adamcin/oakpal/core/ReportMapper.java:89-92 | filtering objects distributes over concatenation |
| ReportMappers.NonObjectSkipped | core/src/main/java/net/adamcin/oakpal/core/ReportMapper.java:103-106 | an entry that is not an object is skipped wherever it stands |
| ReportMappers.PackagesAsWritten | core/src/main/java/net/adamcin/oakpal/core/ReportMapper.java:117-123 | the packages read as written are no more than the items |
| ReportMappers.Packages | core/src/main/java/net/adamcin/oakpal/core/ReportMapper.java:117-123 | every Java string or `JSONString` item whose text parses, one item giving at most its one identifier; with PackagesAppend this is the order-keeping filter (corrected definition, Findings row 4) |
| ReportMappers.PackagesAppend | core/src/main/java/net/adamcin/oakpal/core/ReportMapper.java:117-123 | reading packages distributes over concatenation, so items are read in order (corrected definition, Findings row 4) |
| ReportMappers.PackagesToJson | core/src/main/java/net/adamcin/oakpal/core/ReportMapper.java:186-191 | the written packages are each identifier's text, in order |
| ReportMappers.WrittenPackagesDroppedAsWritten | core/src/main/java/net/adamcin/oakpal/core/ReportMapper.java:117-123 | as written, the reader keeps no package of what the writer wrote |
| ReportMappers.PackageLostAsWritten | core/src/main/java/net/adamcin/oakpal/core/ReportMapper.java:112-127 | a violation with one package reads back without it as written |
| ReportMappers.PackagesRoundTrip | core/src/main/java/net/adamcin/oakpal/core/ReportMapper.java:117-123 | reading written packages gives them back when each reparses from its text |
| ReportMappers.ViolationFromJson | core/src/main/java/net/adamcin/oakpal/core/ReportMapper.java:112-127 | the severity is exactly the one `valueOf` gives for the name, MINOR when absent, and an unknown name throws; the description, empty by default; the packages of a present array, read by the corrected Packages of Findings row 4, none when absent |
| ReportMappers.ViolationsFrom | core/src/main/java/net/adamcin/oakpal/core/ReportMapper.java:102-107 | violation `i` is what object `i` reads as, all of them succeeding exactly when every object does; otherwise the first failing object's exception |
| ReportMappers.ReportFromJson | core/src/main/java/net/adamcin/oakpal/core/ReportMapper.java:98-110 | the check name, empty by default; no violations array gives no violations; a present array gives each object's violation in order, or the first failing object's exception |
| ReportMappers.ReportsFrom | core/src/main/java/net/adamcin/oakpal/core/ReportMapper.java:88-93 | report `i` is what object `i` reads as, all of them succeeding exactly when every object does; otherwise the first failing object's exception |
| ReportMappers.ReadReports | core/src/main/java/net/adamcin/oakpal/core/ReportMapper.java:81-96 | no reports array gives no reports; otherwise report `i` is what the array's object `i` reads as, or the first failing object's exception (packages read by the corrected Packages, Findings row 4) |
| ReportMappers.ViolationToJson | core/src/main/java/net/adamcin/oakpal/core/ReportMapper.java:176-194 | a key is written exactly for each non-null field |
| ReportMappers.ViolationsToJson | core/src/main/java/net/adamcin/oakpal/core/ReportMapper.java:166-168 | one object per violation, in order |
| ReportMappers.ReportToJson | core/src/main/java/net/adamcin/oakpal/core/ReportMapper.java:160-174 | a key is written exactly for each non-null field |
| ReportMappers.ReportsToJson | core/src/main/java/net/adamcin/oakpal/core/ReportMapper.java:154-158 | one object per report, in order |
| ReportMappers.WriteReports | core/src/main/java/net/adamcin/oakpal/core/ReportMapper.java:154-158 | the root holds exactly the reports array, one entry per report |
| ReportMappers.ViolationRoundTrip | core/src/main/java/net/adamcin/oakpal/core/ReportMapper.java:112-127 | a written violation reads back with its fields, nulls becoming MINOR, empty description and no packages (through the corrected Packages of Findings row 4; as written, packages are dropped) |
| ReportMappers.ViolationsRoundTrip | core/src/main/java/net/adamcin/oakpal/core/ReportMapper.java:102-107 | written violations read back in order |
| ReportMappers.ReportRoundTrip | core/src/main/java/net/adamcin/oakpal/core/ReportMapper.java:98-110 | a written report reads back with its check name and violations |
| ReportMappers.ReportsFromWritten | core/src/main/java/net/adamcin/oakpal/core/ReportMapper.java:88-93 | written reports read back in order |
| ReportMappers.ReportsRoundTrip | core/src/main/java/net/adamcin/oakpal/core/ReportMapper.java:81-96 | writing reports and reading them back gives every report, in order, nulls becoming defaults, when package identifiers reparse (through the corrected Packages of Findings row 4; as written, every package is dropped) |
| ReportMappers.ReadBackPresentViolations | core/src/main/java/net/adamcin/oakpal/core/ReportMapper.java:176-194 | violations without nulls read back as themselves |
| ReportMappers.PresentReports | core/src/main/java/net/adamcin/oakpal/core/ReportMapper.java:160-174 | one report without nulls per report |
| ReportMappers.ReadBackPresent | core/src/main/java/net/adamcin/oakpal/core/ReportMapper.java:160-174 | reports without nulls read back as themselves |
| ReportMappers.PresentReportsRoundTrip | core/src/main/java/net/adamcin/oakpal/core/ReportMapper.java:81-194 | writing then reading gives back check names and violations exactly, through the corrected Packages of Findings row 4; as written, every package is dropped (WrittenPackagesDroppedAsWritten) |
| JavaResult.Result.GetError | core/src/main/java/net/adamcin/oakpal/core/Result.java:143-145 | an error is present exactly for a failure |
| JavaResult.Result.FindCause | core/src/main/java/net/adamcin/oakpal/core/Result.java:72-74 | the stub never finds a cause |
| JavaResult.Result.Map | core/src/main/java/net/adamcin/oakpal/core/Result.java:104-107 | a failure maps to the same failure; a success maps to the success of the function's value |
| JavaResult.Result.FlatMap | core/src/main/java/net/adamcin/oakpal/core/Result.java:109-112 | a failure stays the same failure; a success gives whatever the function returns |
| JavaResult.Result.GetOrElse | core/src/main/java/net/adamcin/oakpal/core/Result.java:115-118 | a success yields its value and a failure the default |
| JavaResult.Result.OrElse | core/src/main/java/net/adamcin/oakpal/core/Result.java:127-130 | a success is returned unchanged and a failure is replaced by the supplied result |
| JavaResult.Result.ForEach | core/src/main/java/net/adamcin/oakpal/core/Result.java:133-135 | the consumer sees the value of a success once and nothing for a failure |
| JavaResult.FailureOf | core/src/main/java/net/adamcin/oakpal/core/Result.java:87-90 | a failure built from a message carries that message |
| JavaResult.Stream | core/src/main/java/net/adamcin/oakpal/core/Result.java:138-140 | the stream holds one element exactly for a success with a non-null value |
| JavaResult.MapIdentity | core/src/main/java/net/adamcin/oakpal/core/Result.java:179-182 | mapping the identity gives back the same result |
| JavaResult.MapCompose | core/src/main/java/net/adamcin/oakpal/core/Result.java:179-182 | mapping two functions in turn equals mapping their composition |
| JavaResult.FlatMapLaws | core/src/main/java/net/adamcin/oakpal/core/Result.java:184-187 | success is a left and right unit of flatMap, and flatMap is associative |
| JavaResult.CollectProperties | core/src/main/java/net/adamcin/oakpal/core/Result.java:282-317 | all successes give the list of their values in order; otherwise the result is the first failure and every earlier element succeeded |
| JavaResult.Builder.constructor | core/src/main/java/net/adamcin/oakpal/core/Result.java:259-265 | the latch starts as the success of the empty accumulator |
| JavaResult.Builder.Accept | core/src/main/java/net/adamcin/oakpal/core/Result.java:268-275 | the latch becomes the old latch flat-mapped onto the element's value appended, so the first failure absorbs later elements |
| JavaResult.CollectThroughBuilder | core/src/main/java/net/adamcin/oakpal/core/Result.java:294-317 | streaming every result through one builder gives exactly CollectOrFailOnFirst |
| Violations.Severity.Max | cli/src/main/java/net/adamcin/oakpal/cli/Command.java:107-125 | the reduction step picks one of the two severities and it is at least as severe as both |
| Violations.SeverityValueOf | core/src/main/java/net/adamcin/oakpal/core/ReportMapper.java:113-115 | the severity whose name is exactly the text; no severity when no constant has that name |
| Rules.FuzzyDefaultInclude | api/src/main/java/net/adamcin/oakpal/api/Rules.java:109-114 | the default matches everything and is an exclude exactly when the first rule is include-like |
| Rules.FuzzyDefaultExclude | api/src/main/java/net/adamcin/oakpal/api/Rules.java:123-128 | the default matches everything and is an include exactly when the first rule is exclude-like |
| Rules.FuzzyDefaultAllow | api/src/main/java/net/adamcin/oakpal/api/Rules.java:87-89 | the same default as fuzzyDefaultInclude: deny exactly when the first rule is an allow |
| Rules.FuzzyDefaultDeny | api/src/main/java/net/adamcin/oakpal/api/Rules.java:98-100 | the same default as fuzzyDefaultExclude: allow exactly when the first rule is a deny |
| Rules.LastMatchIndex | api/src/main/java/net/adamcin/oakpal/api/Rules.java:143-147 | the index of a matching rule after which no rule matches, or -1 when none matches |
| Rules.LastMatch | api/src/main/java/net/adamcin/oakpal/api/Rules.java:139-149 | when some rule matches, the decision is a matching rule with no later match; otherwise it is the selected default, DEFAULT_INCLUDE for a null selector |
| Rules.LastMatchFuzzy | api/src/main/java/net/adamcin/oakpal/api/Rules.java:159-161 | the two-argument form uses fuzzyDefaultInclude; with no match the decision excludes exactly when the first rule includes |
| Rules.LastMatchScan | api/src/main/java/net/adamcin/oakpal/api/Rules.java:139-149 | the loop that remembers the latest match returns exactly LastMatch |
| Rules.NonMatchingSuffixIrrelevant | api/src/main/java/net/adamcin/oakpal/api/Rules.java:143-147 | appending rules that do not match a value leaves its decision unchanged |
| SlingNodetypes.GetSlingNodetypesFromManifest | core/src/main/java/net/adamcin/oakpal/core/SlingNodetypesScanner.java:105-120 | a missing header gives no names; otherwise the comma-separated names, trimmed, blank ones dropped, in order |
| SlingNodetypes.TrimEach | core/src/main/java/net/adamcin/oakpal/core/SlingNodetypesScanner.java:113-117 | the loop keeps every header part trimmed, blank ones dropped, in order |
| SlingNodetypes.PiecesOfSplit | core/src/main/java/net/adamcin/oakpal/core/SlingNodetypesScanner.java:109-110 | the trimmed pieces of the header are the trimmed non-blank parts of its split |
| SlingNodetypes.TrimmedNext | core/src/main/java/net/adamcin/oakpal/core/SlingNodetypesScanner.java:113-118 | trimming one more part appends it unless it is blank |
| SlingNodetypes.UrlMap.Put | core/src/main/java/net/adamcin/oakpal/core/SlingNodetypesScanner.java:128 | a put keeps the map's names distinct, maps the name to the URL, and keeps the earlier names in order, a new name going last |
| SlingNodetypes.UrlMap.Values | core/src/main/java/net/adamcin/oakpal/core/SlingNodetypesScanner.java:71 | the values are the URLs in the order of their names |
| SlingNodetypes.ResolveWith | core/src/main/java/net/adamcin/oakpal/core/SlingNodetypesScanner.java:122-133 | a name is resolved exactly when it is listed and the class loader has a resource for it, to that resource; names with no resource are skipped |
| SlingNodetypes.ResolveWithFirstSeen | core/src/main/java/net/adamcin/oakpal/core/SlingNodetypesScanner.java:122-133 | resolved names keep the order they are first resolved in: what a prefix of the names resolves comes first, in the same order |
| SlingNodetypes.ResolveNodeTypeDefinitionsWithLoader | core/src/main/java/net/adamcin/oakpal/core/SlingNodetypesScanner.java:122-133 | the loop reaches the class-loader resolution |
| SlingNodetypes.ResolveInProperties | core/src/main/java/net/adamcin/oakpal/core/SlingNodetypesScanner.java:139-162 | searching one entry keeps what was resolved and adds exactly the names it has that were not |
| SlingNodetypes.FirstHaving | core/src/main/java/net/adamcin/oakpal/core/SlingNodetypesScanner.java:135-166 | the entry found has the name and no earlier entry does, or none does |
| SlingNodetypes.FirstEntryWins | core/src/main/java/net/adamcin/oakpal/core/SlingNodetypesScanner.java:135-166 | a name is resolved exactly when it is listed and some entry has it, to its URL in the first entry that has it |
| SlingNodetypes.ResolveNodeTypeDefinitions | core/src/main/java/net/adamcin/oakpal/core/SlingNodetypesScanner.java:135-166 | the nested loops reach the resolution over the entries in order |
| SlingNodetypes.Headers | core/src/main/java/net/adamcin/oakpal/core/SlingNodetypesScanner.java:84-97 | one header per entry, in order |
| SlingNodetypes.FindNodeTypeDefinitions | core/src/main/java/net/adamcin/oakpal/core/SlingNodetypesScanner.java:82-102 | the URLs are the values of the names every entry's manifest declares, resolved first entry first |
| SlingNodetypes.DeclaredNames | core/src/main/java/net/adamcin/oakpal/core/SlingNodetypesScanner.java:83-99 | the loop collects the names every entry's manifest declares, entry by entry, in order |
| SlingNodetypes.FindNodeTypeDefinitionsWithLoader | core/src/main/java/net/adamcin/oakpal/core/SlingNodetypesScanner.java:60-72 | the URLs are the values of the names every manifest declares, resolved with the class loader |
| SlingSimulation.InstallableParams.CreateInstallable | core/src/main/java/net/adamcin/oakpal/core/sling/DefaultSlingSimulator.java:139-144 | the installable keeps the parent package and path, and its kind follows the kind of parameters read |
| SlingSimulation.Open | core/src/main/java/net/adamcin/oakpal/core/sling/DefaultSlingSimulator.java:103-115 | repoinit scripts open to their scripts and embedded packages to the package; any other installable fails with IllegalArgumentException |
| SlingSimulation.SlingSimulator.constructor | core/src/main/java/net/adamcin/oakpal/core/sling/DefaultSlingSimulator.java:66-76 | the queue starts empty |
| SlingSimulation.SlingSimulator.StartedScan | core/src/main/java/net/adamcin/oakpal/core/sling/DefaultSlingSimulator.java:78-80 | the queue is emptied |
| SlingSimulation.SlingSimulator.DequeueInstallable | core/src/main/java/net/adamcin/oakpal/core/sling/DefaultSlingSimulator.java:97-99 | the oldest queued installable is removed and returned; an empty queue gives null |
| SlingSimulation.SlingSimulator.PrepareInstallableNode | core/src/main/java/net/adamcin/oakpal/core/sling/DefaultSlingSimulator.java:134-149 | an installable is created, queued and returned exactly when the path and the parameters were read and the node is installable |
| SlingSimulation.DrainQueue | core/src/main/java/net/adamcin/oakpal/core/sling/DefaultSlingSimulator.java:97-99 | dequeuing until null gives back everything queued, first in first out |
| SlingSimulation.SeparatorsToUnix | core/src/main/java/net/adamcin/oakpal/core/sling/DefaultSlingSimulator.java:237-242 | null stays null; otherwise every backslash becomes a slash and every other character is kept |
| SlingSimulation.SeparatorsToUnixIdempotent | core/src/main/java/net/adamcin/oakpal/core/sling/DefaultSlingSimulator.java:237-242 | converting twice is converting once |
| SlingSimulation.GetResourceId | core/src/main/java/net/adamcin/oakpal/core/sling/DefaultSlingSimulator.java:244-257 | a suffix of the converted url: after its last '/', or with no '/' after its first ':', or else the whole url |
| SlingSimulation.ConfigExtensionOf | core/src/main/java/net/adamcin/oakpal/core/sling/DefaultSlingSimulator.java:259-279 | the first of ".config" and ".properties" the id ends with, none exactly when it ends with neither |
| SlingSimulation.RemoveConfigExtension | core/src/main/java/net/adamcin/oakpal/core/sling/DefaultSlingSimulator.java:263-270 | the id without its configuration extension, or the id itself when it has none |
| SlingSimulation.IsConfigExtension | core/src/main/java/net/adamcin/oakpal/core/sling/DefaultSlingSimulator.java:272-279 | true exactly when the url ends with a configuration extension |
| SlingSimulation.ExtensionRemovedIff | core/src/main/java/net/adamcin/oakpal/core/sling/DefaultSlingSimulator.java:263-270 | the id changes exactly when it has a configuration extension |
| SlingSimulation.SplitPid | core/src/main/java/net/adamcin/oakpal/core/sling/DefaultSlingSimulator.java:344-356 | a split PID is the non-empty factory PID, the separator ('~' first, else '-') and the configuration PID; otherwise the configuration PID is the whole PID |
| SlingSimulation.SplitPidNone | core/src/main/java/net/adamcin/oakpal/core/sling/DefaultSlingSimulator.java:344-356 | no split happens exactly when the PID has no separator or its first separator starts it |
| SlingSimulation.MaybeConfigResource | core/src/main/java/net/adamcin/oakpal/core/sling/DefaultSlingSimulator.java:337-359 | the parameters of an OSGi configuration whose PIDs are the split of the resource id without its extension |
| ViolatorMaps.GetViolatorList | core/src/main/java/net/adamcin/oakpal/core/checks/ExpectPaths.java:96-102 | an empty list is added for a path only when it has none, appended to the key order; every other path is untouched and the handed-back list is the path's list |
| ViolatorMaps.GetViolatorListOnce | core/src/main/java/net/adamcin/oakpal/core/checks/ExpectPaths.java:96-102 | asking again for the same path changes nothing and hands back the same list |
| ViolatorMaps.Charge | core/src/main/java/net/adamcin/oakpal/core/checks/ExpectPaths.java:113 | the package is appended to the path's list, no other list changes, and a newly charged path joins the key order last |
| ViolatorMaps.ChargeAllLists | core/src/main/java/net/adamcin/oakpal/core/checks/ExpectPaths.java:111-120 | after a loop a path's list has the package once for each time the path is listed and selected, and other paths keep their lists |
| ViolatorMaps.ChargeAllKeys | core/src/main/java/net/adamcin/oakpal/core/checks/ExpectPaths.java:111-120 | the paths with lists are the old ones plus the charged ones, old keys keep their order and new keys follow in the order first charged |
| ViolatorMaps.ChargeAllAppend | core/src/main/java/net/adamcin/oakpal/core/checks/ExpectPaths.java:111-120 | charging along two lists in turn is charging along their concatenation |
| ViolatorMaps.ReportsFor | core/src/main/java/net/adamcin/oakpal/core/checks/ExpectPaths.java:126-131 | at most one violation per path, each MAJOR and naming at least one package |
| ViolatorMaps.ReportsForExactly | core/src/main/java/net/adamcin/oakpal/core/checks/ExpectPaths.java:126-131 | a violation is reported exactly for each listed path charged to at least one package, with its description and its packages |
| ViolatorMaps.ReportsExactly | core/src/main/java/net/adamcin/oakpal/core/checks/ExpectPaths.java:125-140 | every charged path of a map gets its violation and no other violation is reported |
| ViolatorMaps.NothingChargedNothingReported | core/src/main/java/net/adamcin/oakpal/core/checks/ExpectPaths.java:125-140 | when no path was charged nothing is reported |

## Left out

- The repository, the session and every JCR read or write are parameters (node lookups, query runners, node type registries). A read that fails part-way through a loop is not modelled: for example, `Session.itemExists` throwing `RepositoryException` in ExpectPaths.Check.AfterExtract after some paths were already charged. Every read is taken to answer. Oak set-up and tear-down (`initRepository`, `loginAdmin`, `addOakpalTypes`, `shutdownRepository`) are not modelled.
- Regular expression matching is a parameter `(pattern, value) -> bool`. `Rule.java` is not part of this model beyond its include/exclude last-match semantics.
- Java `HashMap` and `HashSet` iteration order is modelled as insertion order. ExpectAces orders restrictions by first occurrence.
- `JavaxJson` number conversions involve floating point and are not modelled. Numbers are integers.
- Script checks, the jcrfacade wrappers, the `CndImporter` call itself, and `DefaultSlingSimulator`'s `readDictionary`, `openEmbeddedPackage` and `loadJcrProperties` are not modelled. They do I/O or run foreign code.
- The following JSON and I/O operations are not modelled: `CheckSpec` `toJson`/`fromJson`, `Checklist` `toJson`/`fromJson`/`asInitStage`, `ChecklistPlanner` `discoverChecklists`/`parseChecklist`/`constructChecklists`/`bestModuleName`. They read class loaders and files.
- `JcrPropertyConstraints.fromJson` is JSON parsing and is not modelled. Constraints are built as values.
- `QName.adaptName` (QName.java:123-133) is not modelled. The webster copy of name adaptation is.
- In `JsonCnd`, only `TypeDefinitionAttribute`, the residual names, the comparator and `streamNsPrefix` are modelled. The item, property and child node attribute and key enums, the `Q*Adapter` classes, `readNodeTypes`, `aggregateNodeTypes`, `toJson` and the namespace helpers are not modelled.
- SlingNodetypes.FindNodeTypeDefinitions: a jar without a manifest makes the source throw a NullPointerException. The model treats it as having no header.
- DocViewNames: Jackrabbit's `NamespaceMapping.setMapping` is not part of this model; the model takes it as keeping the mapping two-way. The namespace stack is a sequence, newest first. The docview XML branch, which does nothing in the source, is not modelled.
- CndUrlInstallers: the CND importer is a parameter that gives, per URL, the repository state it leaves and the error it threw, if any. Which node types and namespaces a failed import keeps is the parameter's to say.
- CompositeStoreAlignment: the mount layout (`MountInfoProvider`) is a parameter that maps a path to its mount. The validation done by the `Mounts` builder is not modelled. The unbounded recursion of the as-written graph walk is modelled with a depth bound.
- CliCommand: console output, help and version text, `Options.Builder.build` and the scan itself are parameters or not modelled.
- OpearFiles: `fromJar`, `cacheJar` and `getHashCacheKey` (files and SHA-256) are not modelled. URI normalisation and the manifest header parser are parameters.
- `OpearArchiveMojo` repeats `mapDestFileNames` and is covered by the DestFileNames model.
- ChecklistExporters: namespace renaming is a parameter. The following are not modelled:
  - `ensureNamespaces` and the namespace, node type and privilege export in `updateChecklist` (ChecklistExporter.java:460-527);
  - JSON writing and key sorting;
  - the query language detection inside the query runner;
  - a root with a null path;
  - a null argument list given to an operation.
  `equalsIgnoreCase` is modelled as ASCII case folding; the selector type and policy names contain no letter on which ASCII and Unicode folding differ.
- CliCommand: `Severity.byName` (used by `--severity-fail`) is not part of this model. It is the parameter `severityByName`, and its failure is passed on as the source does. `Violations.SeverityValueOf` models `Severity.valueOf`, an exact name match.
- `PackageId` is modelled as its string form. Parsing that form is a parameter.
- OakMachines: the model follows the scan code, which makes no Sling simulator calls during the scan.
- OakMachines: an exception is identified by the class its `catch` names. Subclasses (a `PathNotFoundException` caught as a `RepositoryException`, say) are not modelled, so a check's exception must be given under the caught class's name.
- OakMachines: exceptions from `admin.logout`, `shutdownRepository`, `jcrPackage.close` and the error listener's own calls are not modelled. The repository set-up before the pre-install packages is one optional exception (`setUp`).
- OakMachines: the message and cause of `AbortedScanException` are not modelled. The file it names and the wrapped exception are dropped.
- OakMachines: what the importer does between messages, and the save after extraction, are folded into one optional exception per extraction (`subpackageExtraction`, `extraction`).
- The following are not modelled: the Maven mojos, the CLI `Options` and loader, `Fun`, `JsonUtil`, `OrgJson`, and the webster exporters other than the checklist exporter.
- ExpectAces.SingleValue: a restriction carried with several values makes the repository's `getRestriction` throw `ValueFormatException`; the model reads it as no single value, so the criterion is not satisfied.
- AcHandling.ModesOf: `String.toUpperCase` is modelled as ASCII upper-casing in a fixed locale. Java also upper-cases non-ASCII letters ("ıgnore" becomes IGNORE, "ſ" becomes S) and follows the default locale (under a Turkish locale "ignore" becomes "İGNORE"), so on such names the source's answer differs from the model's.
- AcHandling.ModesOfProperties: holds for ASCII upper-casing only, as the ModesOf line says; a mode name spelled with "ı" or "ſ" is read by the source and refused by the model.
- AcHandling.NewInstance: the level set and mode names are upper-cased as ASCII, as the ModesOf line says; "no_unſafe" is accepted by the source and fails in the model, and a Turkish default locale makes the source refuse "ignore".
- CompositeStoreAlignment.NewInstance: the severity name is upper-cased as ASCII in a fixed locale; "mınor" is MINOR in the source and fails in the model, and a Turkish default locale makes the source refuse "minor".
- JsonCnd.FirstMatching: `equalsIgnoreCase` is modelled as ASCII case folding, while Java folds every Unicode letter; "mıxın" reads as MIXIN in the source and as UNKNOWN in the model.
- JsonCnd.MatchesLower: the equivalence is stated for ASCII lower-casing, as the FirstMatching line says.
- JsonCnd.ForTokenProperties: "ignores case" means ASCII case, as the FirstMatching line says.
- JsonCnd.LexCompare: Dafny characters are Unicode scalar values, while `String.compareTo` compares UTF-16 code units. The two orders differ only between characters outside the Basic Multilingual Plane and those from U+E000 to U+FFFF.
- CheckSpecs.Merge: a configuration is a map, so the key order of the JSON object `merge` builds is not modelled.
- OpearFiles.OpearFile.DefaultPlan: a failure of `File.toURI().toURL()` for the first plan would fall back to the basic or the empty plan. A file URI always converts, so that path is not modelled.
- CompositeStoreAlignment.Check.constructor: whether the mount information has a mount besides the default one is the flag `hasNonDefaultMounts`, as the `MountInfoProvider` answers it. Oak's `Mounts` builder is not part of this model.
- CliCommand.ReadArg: states only that reading moves forward within the arguments, not which value is read. The value is stated by `ParseWithValue`.

## Findings

| source | as written | input that shows it | evidently intended | confidence | as-written member | corrected member |
|---|---|---|---|---|---|---|
| core/src/main/java/net/adamcin/oakpal/core/checks/PackageGraph.java:85-94 | `setParent` first clears the node's parent and then puts the node into that parent's children, which is now null | `identifySubpackage(x, x)`: a package made its own parent | a package made its own parent is only detached | not executed | PackageGraphs.SetParentSelfThrowsAsWritten | PackageGraphs.SetParentSelfDetaches |
| core/src/main/java/net/adamcin/oakpal/core/checks/CompositeStoreAlignment.java:164-167 | `identifySubpackage` lists a package under itself, and the graph walk at lines 213-219 then recurses without end | `identifySubpackage(x, x)` followed by the package report for `x` | a package is never listed among its own subpackages | not executed | CompositeStoreAlignment.SelfParentOverflows | CompositeStoreAlignment.AddSubpackageKeepsRanked |
| core/src/main/java/net/adamcin/oakpal/core/QName.java:165-172 | `equals` calls `uri.equals` although the URI is null for an unknown prefix, while `hashCode` allows the null | `"foo:bar"` with no mapping for `foo`, parsed twice and the two parses compared | equality compares the URIs without throwing, as `hashCode` treats them | not executed | QNames.UnknownPrefixEqualsThrows | QNames.EqualsContract |
| core/src/main/java/net/adamcin/oakpal/core/ReportMapper.java:117-123 | reading a violation keeps only package entries that are `JSONString`, but the writer writes plain strings and the parser yields plain strings | a violation for package `my_packages:example:1.0`, written and read back | the violation reads back with its package | not executed | ReportMappers.PackageLostAsWritten | ReportMappers.PackagesRoundTrip |
| webster/src/main/java/net/adamcin/oakpal/webster/DocViewNameFinder.java:173-182 | the dependency transform ignores the dependency and adapts the definition's own name | node type `my:folder` depending on `nt:base` | each dependency is collected as a reference | not executed | DocViewNames.DependencyLostAsWritten | DocViewNames.CollectNodeType |
| core/src/main/java/net/adamcin/oakpal/core/ChecklistPlanner.java:174-177 | `reduce(base, CheckSpec::overlay)` overlays the check on each override, so the override's name is kept and the check's own config wins | check `alpha/foo` with config `shared = zero`, override `foo` with `shared = two` | the override's config wins and the check keeps its name | not executed | ChecklistPlanning.ApplyOverridesAsWrittenLosesOverride | ChecklistPlanning.ApplyOverrides |
