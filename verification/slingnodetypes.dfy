/**
 * Discovery of the node type definitions bundles declare: the `Sling-Nodetypes` manifest header lists CND
 * resource names, and each name is resolved to a URL in the first classpath entry that has it.
 */
module SlingNodetypes {
  import opened Wrappers
  import JavaString
  import Seqs

  const SlingNodetypesHeader: string := "Sling-Nodetypes"

  /** `getSlingNodetypesFromManifest`: the header's comma-separated names, trimmed, blank ones dropped. */
  method GetSlingNodetypesFromManifest(header: Option<string>) returns (resourceNames: seq<string>)
    ensures header.None? ==> resourceNames == []
    ensures header.Some? ==> resourceNames == JavaString.TrimmedPieces(header.value, ',')
  {
    resourceNames := [];
    if header.Some? {
      var nodeTypeDefinitionArray := JavaString.Split(header.value, ',');
      resourceNames := TrimEach(nodeTypeDefinitionArray);
      PiecesOfSplit(header.value);
    }
  }

  /** The loop over the split header: each part trimmed, kept when not blank. */
  method TrimEach(parts: seq<string>) returns (kept: seq<string>)
    ensures kept == JavaString.TrimmedNonBlank(parts)
  {
    kept := [];
    for i := 0 to |parts|
      invariant kept == JavaString.TrimmedNonBlank(parts[..i])
    {
      TrimmedNext(parts, i);
      var trimmed := JavaString.Trim(parts[i]);
      if trimmed != "" {
        kept := kept + [trimmed];
      }
    }
    assert parts[..|parts|] == parts;
  }

  lemma PiecesOfSplit(s: string)
    ensures JavaString.TrimmedPieces(s, ',') == JavaString.TrimmedNonBlank(JavaString.Split(s, ','))
  {
  }

  /** Trimming one more part appends it, unless it is blank. */
  lemma TrimmedNext(parts: seq<string>, i: nat)
    requires i < |parts|
    ensures JavaString.TrimmedNonBlank(parts[..i + 1]) ==
      JavaString.TrimmedNonBlank(parts[..i]) + (if JavaString.Trim(parts[i]) != "" then [JavaString.Trim(parts[i])] else [])
  {
    assert parts[..i + 1][..i] == parts[..i];
  }

  /** A map from resource name to URL text that remembers the order names were first put. */
  datatype UrlMap = UrlMap(names: seq<string>, urls: map<string, string>) {
    ghost predicate Valid() {
      Seqs.Distinct(names) && forall n :: n in urls <==> n in names
    }

    /** `put`: a new name goes last; a known one keeps its place and takes the new URL. */
    function Put(name: string, url: string): (r: UrlMap)
      ensures Valid() ==> r.Valid()
      ensures r.urls == urls[name := url]
      ensures |names| <= |r.names| <= |names| + 1 && r.names[..|names|] == names
    {
      if name in urls then UrlMap(names, urls[name := url]) else UrlMap(names + [name], urls[name := url])
    }

    /** `values()`: the URLs in the order of their names. */
    function Values(): (r: seq<string>)
      requires Valid()
      ensures |r| == |names| && forall i :: 0 <= i < |names| ==> r[i] == urls[names[i]]
    {
      seq(|names|, i requires 0 <= i < |names| => urls[names[i]])
    }
  }

  const EmptyUrlMap: UrlMap := UrlMap([], map[])

  /** `ClassLoader.getResource`: the URL of a resource, none when the class loader has no such resource. */
  type ResourceLookup = string -> Option<string>

  /** The class-loader resolution: each name with a resource put, in order. */
  function ResolveWith(getResource: ResourceLookup, names: seq<string>): (r: UrlMap)
    ensures r.Valid()
    ensures forall n :: n in r.urls <==> n in names && getResource(n).Some?
    ensures forall n :: n in r.urls ==> r.urls[n] == getResource(n).value
  {
    if |names| == 0 then EmptyUrlMap
    else
      var name := names[|names| - 1];
      var before := ResolveWith(getResource, names[..|names| - 1]);
      assert names == names[..|names| - 1] + [name];
      if getResource(name).Some? then before.Put(name, getResource(name).value) else before
  }

  /**
   * The names keep the order they are first resolved in: what resolving a prefix of the names puts comes first,
   * in the same order.
   */
  lemma {:induction false} ResolveWithFirstSeen(getResource: ResourceLookup, names: seq<string>, k: nat)
    requires k <= |names|
    ensures ResolveWith(getResource, names[..k]).names <= ResolveWith(getResource, names).names
    decreases |names|
  {
    if k < |names| {
      var init := names[..|names| - 1];
      assert init[..k] == names[..k];
      ResolveWithFirstSeen(getResource, init, k);
    } else {
      assert names[..k] == names;
    }
  }

  /** `resolveNodeTypeDefinitions(classLoader, resourceNames)` */
  method ResolveNodeTypeDefinitionsWithLoader(getResource: ResourceLookup, resourceNames: seq<string>)
    returns (cndUrls: UrlMap)
    ensures cndUrls == ResolveWith(getResource, resourceNames)
  {
    cndUrls := EmptyUrlMap;
    for i := 0 to |resourceNames|
      invariant cndUrls == ResolveWith(getResource, resourceNames[..i])
    {
      assert resourceNames[..i + 1][..i] == resourceNames[..i];
      var cndUrl := getResource(resourceNames[i]);
      if cndUrl.Some? {
        cndUrls := cndUrls.Put(resourceNames[i], cndUrl.value);
      }
    }
    assert resourceNames[..|resourceNames|] == resourceNames;
  }

  /**
   * A classpath entry: a jar with its entries, or a directory (or a path that does not exist, which has no
   * files) with its files; each has the value of its manifest's `Sling-Nodetypes` header.
   */
  datatype ZipFile =
    | Jar(path: string, entries: set<string>, header: Option<string>)
    | Directory(path: string, files: set<string>, header: Option<string>)
  {
    predicate Has(name: string) {
      match this
      case Jar(_, entries, _) => name in entries
      case Directory(_, files, _) => name in files
    }
  }

  /** `File.toURI().toURL().toExternalForm()` of a path. */
  type FileUrl = string -> string

  /** The URL of a name inside an entry: `jar:<jar url>!/<name>`, or the URL of the file in the directory. */
  function UrlIn(zip: ZipFile, name: string, fileUrl: FileUrl): string {
    match zip
    case Jar(path, _, _) => "jar:" + fileUrl(path) + "!/" + name
    case Directory(path, _, _) => fileUrl(path + "/" + name)
  }

  /** One entry searched: every name not resolved yet that the entry has, put with its URL there. */
  function ResolveIn(m: UrlMap, zip: ZipFile, names: seq<string>, fileUrl: FileUrl): UrlMap {
    if |names| == 0 then m
    else
      var before := ResolveIn(m, zip, names[..|names| - 1], fileUrl);
      var name := names[|names| - 1];
      if name in before.urls || !zip.Has(name) then before else before.Put(name, UrlIn(zip, name, fileUrl))
  }

  /** Searching one entry keeps what was resolved and adds exactly the names it has that were not. */
  lemma {:induction false} ResolveInProperties(m: UrlMap, zip: ZipFile, names: seq<string>, fileUrl: FileUrl)
    requires m.Valid()
    ensures var r := ResolveIn(m, zip, names, fileUrl);
      r.Valid() && |m.names| <= |r.names| && r.names[..|m.names|] == m.names &&
      (forall n :: n in r.urls <==> n in m.urls || (n in names && zip.Has(n))) &&
      (forall n :: n in m.urls ==> r.urls[n] == m.urls[n]) &&
      (forall n :: n in r.urls && n !in m.urls ==> r.urls[n] == UrlIn(zip, n, fileUrl))
  {
    if |names| > 0 {
      var init := names[..|names| - 1];
      ResolveInProperties(m, zip, init, fileUrl);
      assert names == init + [names[|names| - 1]];
      var before := ResolveIn(m, zip, init, fileUrl);
      var r := ResolveIn(m, zip, names, fileUrl);
      assert r.names[..|before.names|] == before.names;
      assert r.names[..|m.names|] == before.names[..|m.names|];
    }
  }

  /** `resolveNodeTypeDefinitions(zipFiles, resourceNames)`: the entries searched in order. */
  function ResolveAll(zips: seq<ZipFile>, names: seq<string>, fileUrl: FileUrl): UrlMap {
    if |zips| == 0 then EmptyUrlMap
    else ResolveIn(ResolveAll(zips[..|zips| - 1], names, fileUrl), zips[|zips| - 1], names, fileUrl)
  }

  /** The index of the first entry that has a name, or the number of entries when none does. */
  function FirstHaving(zips: seq<ZipFile>, name: string): (k: nat)
    ensures k <= |zips| && (k < |zips| ==> zips[k].Has(name))
    ensures forall j :: 0 <= j < k ==> !zips[j].Has(name)
  {
    if |zips| == 0 then 0
    else
      var k := FirstHaving(zips[..|zips| - 1], name);
      if k < |zips| - 1 then k else if zips[|zips| - 1].Has(name) then |zips| - 1 else |zips|
  }

  /**
   * `r` resolves a name exactly when it is listed and some entry has it, and then to its URL in the first entry
   * that has it.
   */
  ghost predicate ResolvesFirst(zips: seq<ZipFile>, names: seq<string>, fileUrl: FileUrl, r: UrlMap) {
    r.Valid() &&
    (forall n :: n in r.urls <==> n in names && FirstHaving(zips, n) < |zips|) &&
    (forall n :: n in r.urls ==> r.urls[n] == UrlIn(zips[FirstHaving(zips, n)], n, fileUrl))
  }

  /**
   * A name is resolved exactly when it is listed and some entry has it, and then to its URL in the first entry
   * that has it; names with no resource are skipped.
   */
  lemma {:induction false} FirstEntryWins(zips: seq<ZipFile>, names: seq<string>, fileUrl: FileUrl)
    ensures ResolvesFirst(zips, names, fileUrl, ResolveAll(zips, names, fileUrl))
  {
    if |zips| > 0 {
      var init := zips[..|zips| - 1];
      FirstEntryWins(init, names, fileUrl);
      var prior := ResolveAll(init, names, fileUrl);
      ResolveInProperties(prior, zips[|zips| - 1], names, fileUrl);
      ResolvesFirstStep(zips, names, fileUrl, prior, ResolveIn(prior, zips[|zips| - 1], names, fileUrl));
    }
  }

  /** Searching the last entry after the others resolves each name to the first entry that has it. */
  lemma ResolvesFirstStep(zips: seq<ZipFile>, names: seq<string>, fileUrl: FileUrl, prior: UrlMap, r: UrlMap)
    requires |zips| > 0 && ResolvesFirst(zips[..|zips| - 1], names, fileUrl, prior)
    requires r.Valid()
    requires forall n :: n in r.urls <==> n in prior.urls || (n in names && zips[|zips| - 1].Has(n))
    requires forall n :: n in prior.urls ==> r.urls[n] == prior.urls[n]
    requires forall n :: n in r.urls && n !in prior.urls ==> r.urls[n] == UrlIn(zips[|zips| - 1], n, fileUrl)
    ensures ResolvesFirst(zips, names, fileUrl, r)
  {
    var init := zips[..|zips| - 1];
    forall n
      ensures FirstHaving(zips, n) == if FirstHaving(init, n) < |init| then FirstHaving(init, n)
        else if zips[|init|].Has(n) then |init| else |zips|
    {
    }
    assert forall k :: 0 <= k < |init| ==> zips[k] == init[k];
  }

  /** `resolveNodeTypeDefinitions(zipFiles, resourceNames)`: for each entry, each name not resolved yet. */
  method ResolveNodeTypeDefinitions(zipFiles: seq<ZipFile>, resourceNames: seq<string>, fileUrl: FileUrl)
    returns (cndUrls: UrlMap)
    ensures cndUrls == ResolveAll(zipFiles, resourceNames, fileUrl)
  {
    cndUrls := EmptyUrlMap;
    for i := 0 to |zipFiles|
      invariant cndUrls == ResolveAll(zipFiles[..i], resourceNames, fileUrl)
    {
      assert zipFiles[..i + 1][..i] == zipFiles[..i];
      ghost var start := cndUrls;
      var zipFile := zipFiles[i];
      for j := 0 to |resourceNames|
        invariant cndUrls == ResolveIn(start, zipFile, resourceNames[..j], fileUrl)
      {
        assert resourceNames[..j + 1][..j] == resourceNames[..j];
        var name := resourceNames[j];
        if name !in cndUrls.urls && zipFile.Has(name) {
          cndUrls := cndUrls.Put(name, UrlIn(zipFile, name, fileUrl));
        }
      }
      assert resourceNames[..|resourceNames|] == resourceNames;
    }
    assert zipFiles[..|zipFiles|] == zipFiles;
  }

  /** The `Sling-Nodetypes` header of every entry's manifest, entry by entry. */
  function Headers(zips: seq<ZipFile>): (r: seq<Option<string>>)
    ensures |r| == |zips| && forall i :: 0 <= i < |zips| ==> r[i] == zips[i].header
  {
    if |zips| == 0 then [] else Headers(zips[..|zips| - 1]) + [zips[|zips| - 1].header]
  }

  /**
   * `findNodeTypeDefinitions(zipFiles)`: the names of every entry's manifest, then their URLs, first entry
   * first.
   */
  method FindNodeTypeDefinitions(zipFiles: seq<ZipFile>, fileUrl: FileUrl) returns (urls: seq<string>)
    ensures var resolved := ResolveAll(zipFiles, HeaderNames(Headers(zipFiles)), fileUrl);
      resolved.Valid() && urls == resolved.Values()
  {
    var resourceNames := DeclaredNames(zipFiles);
    var cndUrls := ResolveNodeTypeDefinitions(zipFiles, resourceNames, fileUrl);
    FirstEntryWins(zipFiles, resourceNames, fileUrl);
    urls := cndUrls.Values();
  }

  /** The first loop of `findNodeTypeDefinitions(zipFiles)`: the names every entry's manifest declares, in order. */
  method DeclaredNames(zipFiles: seq<ZipFile>) returns (resourceNames: seq<string>)
    ensures resourceNames == HeaderNames(Headers(zipFiles))
  {
    resourceNames := [];
    for i := 0 to |zipFiles|
      invariant resourceNames == HeaderNames(Headers(zipFiles[..i]))
    {
      assert zipFiles[..i + 1][..i] == zipFiles[..i];
      assert Headers(zipFiles[..i + 1])[..i] == Headers(zipFiles[..i]);
      var names := GetSlingNodetypesFromManifest(zipFiles[i].header);
      resourceNames := resourceNames + names;
    }
    assert zipFiles[..|zipFiles|] == zipFiles;
  }

  /** The names the manifests declare, in the order the class loader lists them. */
  function HeaderNames(headers: seq<Option<string>>): seq<string> {
    if |headers| == 0 then []
    else
      var header := headers[|headers| - 1];
      HeaderNames(headers[..|headers| - 1]) + (if header.Some? then JavaString.TrimmedPieces(header.value, ',') else [])
  }

  /**
   * `findNodeTypeDefinitions(classLoader)`: the names of every manifest the class loader finds, then the URLs of
   * those it has a resource for.
   */
  method FindNodeTypeDefinitionsWithLoader(manifestHeaders: seq<Option<string>>, getResource: ResourceLookup)
    returns (urls: seq<string>)
    ensures var resolved := ResolveWith(getResource, HeaderNames(manifestHeaders));
      urls == resolved.Values()
  {
    var resourceNames: seq<string> := [];
    for i := 0 to |manifestHeaders|
      invariant resourceNames == HeaderNames(manifestHeaders[..i])
    {
      assert manifestHeaders[..i + 1][..i] == manifestHeaders[..i];
      var names := GetSlingNodetypesFromManifest(manifestHeaders[i]);
      resourceNames := resourceNames + names;
    }
    assert manifestHeaders[..|manifestHeaders|] == manifestHeaders;
    var cndUrls := ResolveNodeTypeDefinitionsWithLoader(getResource, resourceNames);
    urls := cndUrls.Values();
  }
}
