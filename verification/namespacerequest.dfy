/**
 * A request for the namespace mappings a set of JCR names needs: a builder collects the prefixes and URIs
 * to retain, the request drops the built-in ones unless told to keep them, and resolving it against a
 * namespace mapping gives one result per retained prefix, then one per retained URI that the prefixes did
 * not already resolve to.
 */
module NamespaceMappingRequests {
  import opened Wrappers
  import opened JavaResult
  import JavaString
  import Seqs
  import QNames
  import JsonCnd

  /** `BUILTIN_PREFIXES`: the prefixes of the built-in mappings. */
  const BuiltinPrefixes: set<string> := QNames.BuiltinPrefixToUri.Keys

  /** `BUILTIN_URIS`: the URIs of the built-in mappings. */
  const BuiltinUris: set<string> := QNames.BuiltinUriToPrefix.Keys

  /** A namespace prefix and its URI, as JSON CND lists them. */
  datatype JcrNs = JcrNs(prefix: string, uri: string)

  /** A built request: the prefixes and the URIs it retains. */
  datatype Request = Request(retainPrefixes: seq<string>, retainUris: seq<string>)

  predicate NotBuiltinPrefix(prefix: string) {
    prefix !in BuiltinPrefixes
  }

  predicate NotBuiltinUri(uri: string) {
    uri !in BuiltinUris
  }

  /**
   * The constructor: the prefixes and URIs as given when built-ins are retained, otherwise without the
   * built-in ones.
   */
  function NewRequest(retainPrefixes: seq<string>, retainUris: seq<string>, retainBuiltins: bool): (r: Request)
    ensures forall p :: p in r.retainPrefixes <==> p in retainPrefixes && (retainBuiltins || p !in BuiltinPrefixes)
    ensures forall u :: u in r.retainUris <==> u in retainUris && (retainBuiltins || u !in BuiltinUris)
    ensures retainBuiltins ==> r == Request(retainPrefixes, retainUris)
  {
    if retainBuiltins then Request(retainPrefixes, retainUris)
    else Request(Seqs.Filter(retainPrefixes, NotBuiltinPrefix), Seqs.Filter(retainUris, NotBuiltinUri))
  }

  /** What `withJCRName` retains: the URI of an expanded name, else the prefix, if any. */
  datatype Retention = RetainUri(uri: string) | RetainPrefixes(prefixes: seq<string>)

  /**
   * A name that starts with `{` and has its first `}` after at least one character retains the text between
   * them as a URI; any other name retains what `streamNsPrefix` gives.
   */
  function JcrNameRetention(jcrName: string): (r: Retention)
    ensures r.RetainUri? <==> JavaString.StartsWith(jcrName, "{") && JavaString.IndexOf(jcrName, '}') > 1
    ensures r.RetainUri? ==>
      '}' !in r.uri && r.uri != "" && JavaString.StartsWith(jcrName, "{" + r.uri + "}")
    ensures r.RetainPrefixes? ==> r.prefixes == JsonCnd.StreamNsPrefix(jcrName)
  {
    var closeBrace := JavaString.IndexOf(jcrName, '}');
    if closeBrace > 1 && JavaString.StartsWith(jcrName, "{") then
      var uri := jcrName[1..closeBrace];
      assert jcrName[..closeBrace + 1] == "{" + uri + "}";
      RetainUri(uri)
    else RetainPrefixes(JsonCnd.StreamNsPrefix(jcrName))
  }

  /** An expanded name with a non-empty URI retains that URI. */
  lemma ExpandedNameRetainsUri(uri: string, localName: string)
    requires uri != "" && '}' !in uri
    ensures JcrNameRetention("{" + uri + "}" + localName) == RetainUri(uri)
  {
    var name := "{" + uri + "}" + localName;
    var head := "{" + uri;
    assert name == head + ['}'] + localName;
    assert '}' !in head;
    JavaString.IndexOfAfter(head, '}', localName);
    assert name[1..|head|] == uri;
  }

  /** An expanded name with an empty URI is not read as expanded: without a colon it retains nothing. */
  lemma EmptyUriRetainsNothing(localName: string)
    requires ':' !in localName
    ensures JcrNameRetention("{}" + localName) == RetainPrefixes([])
  {
    var name := "{}" + localName;
    assert name == ['{'] + ['}'] + localName;
    JavaString.IndexOfAfter(['{'], '}', localName);
    assert ':' !in name by {
      assert forall i :: 2 <= i < |name| ==> name[i] == localName[i - 2];
    }
    JsonCnd.StreamNsPrefixCases(name);
  }

  /**
   * A prefixed name retains its prefix, when the prefix does not start an expanded name and something other
   * than colons follows the colon.
   */
  lemma PrefixedNameRetainsPrefix(prefix: string, localName: string)
    requires ':' !in prefix && (prefix == "" || prefix[0] != '{')
    requires exists j :: 0 <= j < |localName| && localName[j] != ':'
    ensures JcrNameRetention(prefix + ":" + localName) == RetainPrefixes([prefix])
  {
    var name := prefix + ":" + localName;
    assert name[0] != '{';
    NotExpanded(name);
    ColonNamePrefix(prefix, localName);
  }

  /** A name that does not start with `{` retains what `streamNsPrefix` gives. */
  lemma NotExpanded(name: string)
    requires name != [] && name[0] != '{'
    ensures JcrNameRetention(name) == RetainPrefixes(JsonCnd.StreamNsPrefix(name))
  {
    assert !JavaString.StartsWith(name, "{");
  }

  /** `streamNsPrefix` gives the text before the first colon when something other than colons follows it. */
  lemma ColonNamePrefix(prefix: string, localName: string)
    requires ':' !in prefix
    requires exists j :: 0 <= j < |localName| && localName[j] != ':'
    ensures JsonCnd.StreamNsPrefix(prefix + ":" + localName) == [prefix]
  {
    var name := prefix + ":" + localName;
    assert name == prefix + [':'] + localName;
    JavaString.IndexOfAfter(prefix, ':', localName);
    assert name[..|prefix|] == prefix;
    var j :| 0 <= j < |localName| && localName[j] != ':';
    assert name[|prefix| + 1 + j] == localName[j];
    JsonCnd.StreamNsPrefixCases(name);
  }

  /** `mapping.getURI(prefix)`: the prefix with its URI, or the exception for an unmapped prefix. */
  function ResolvePrefix(mapping: QNames.NamespaceMapping, prefix: string): (r: Result<JcrNs>)
    ensures r.Success? <==> mapping.Uri(prefix).Some?
  {
    match mapping.Uri(prefix)
    case Some(uri) => Success(JcrNs(prefix, uri))
    case None => Failure(Exception("NamespaceException", prefix))
  }

  /** `mapping.getPrefix(uri)`: the URI with its prefix, or the exception for an unmapped URI. */
  function ResolveUri(mapping: QNames.NamespaceMapping, uri: string): (r: Result<JcrNs>)
    ensures r.Success? <==> mapping.Prefix(uri).Some?
  {
    match mapping.Prefix(uri)
    case Some(prefix) => Success(JcrNs(prefix, uri))
    case None => Failure(Exception("NamespaceException", uri))
  }

  /** The results of the prefix phase: one per prefix, in order. */
  function PrefixResults(mapping: QNames.NamespaceMapping, prefixes: seq<string>): (r: seq<Result<JcrNs>>)
    ensures |r| == |prefixes|
  {
    if |prefixes| == 0 then []
    else PrefixResults(mapping, prefixes[..|prefixes| - 1]) + [ResolvePrefix(mapping, prefixes[|prefixes| - 1])]
  }

  /** The URIs of the successful results. */
  function RetainedUris(results: seq<Result<JcrNs>>): set<string> {
    set r | r in results && r.Success? :: r.value.uri
  }

  /** The results of the URI phase: one per URI not among `retained`, in order. */
  function UriResults(mapping: QNames.NamespaceMapping, uris: seq<string>, retained: set<string>)
    : (r: seq<Result<JcrNs>>)
    ensures |r| <= |uris|
  {
    if |uris| == 0 then []
    else
      var init := UriResults(mapping, uris[..|uris| - 1], retained);
      var uri := uris[|uris| - 1];
      if uri in retained then init else init + [ResolveUri(mapping, uri)]
  }

  /** What `resolveToJcrNs` gives: the prefix phase, then the URI phase skipping the URIs already resolved. */
  function Resolution(request: Request, mapping: QNames.NamespaceMapping): seq<Result<JcrNs>> {
    var prefixResults := PrefixResults(mapping, request.retainPrefixes);
    prefixResults + UriResults(mapping, request.retainUris, RetainedUris(prefixResults))
  }

  /** `resolveToJcrNs`: the prefixes resolved in order, then the URIs that no prefix resolved to. */
  method ResolveToJcrNs(request: Request, mapping: QNames.NamespaceMapping) returns (results: seq<Result<JcrNs>>)
    ensures results == Resolution(request, mapping)
  {
    var prefixes := request.retainPrefixes;
    results := [];
    for i := 0 to |prefixes|
      invariant results == PrefixResults(mapping, prefixes[..i])
    {
      assert prefixes[..i + 1][..i] == prefixes[..i];
      results := results + [ResolvePrefix(mapping, prefixes[i])];
    }
    assert prefixes[..|prefixes|] == prefixes;
    var prefixResults := results;
    var retainedUris := RetainedUris(prefixResults);
    var uris := request.retainUris;
    for j := 0 to |uris|
      invariant results == prefixResults + UriResults(mapping, uris[..j], retainedUris)
    {
      assert uris[..j + 1][..j] == uris[..j];
      if uris[j] !in retainedUris {
        results := results + [ResolveUri(mapping, uris[j])];
      }
    }
    assert uris[..|uris|] == uris;
  }

  /** The prefix phase gives, at each position, the result for the prefix at that position. */
  lemma {:induction false} PrefixResultsAt(mapping: QNames.NamespaceMapping, prefixes: seq<string>, i: nat)
    requires i < |prefixes|
    ensures PrefixResults(mapping, prefixes)[i] == ResolvePrefix(mapping, prefixes[i])
  {
    if i < |prefixes| - 1 {
      PrefixResultsAt(mapping, prefixes[..|prefixes| - 1], i);
    }
  }

  /** A URI is retained by the prefix phase exactly when one of the prefixes maps to it. */
  lemma {:induction false} RetainedUrisOfPrefixes(mapping: QNames.NamespaceMapping, prefixes: seq<string>, uri: string)
    ensures uri in RetainedUris(PrefixResults(mapping, prefixes)) <==>
      exists p :: p in prefixes && mapping.Uri(p) == Some(uri)
  {
    var results := PrefixResults(mapping, prefixes);
    if uri in RetainedUris(results) {
      var r :| r in results && r.Success? && r.value.uri == uri;
      var i :| 0 <= i < |results| && results[i] == r;
      PrefixResultsAt(mapping, prefixes, i);
      assert prefixes[i] in prefixes && mapping.Uri(prefixes[i]) == Some(uri);
    }
    if exists p :: p in prefixes && mapping.Uri(p) == Some(uri) {
      var p :| p in prefixes && mapping.Uri(p) == Some(uri);
      var i :| 0 <= i < |prefixes| && prefixes[i] == p;
      PrefixResultsAt(mapping, prefixes, i);
      assert results[i] == Success(JcrNs(p, uri));
    }
  }

  /** The URI phase holds the result for a URI exactly when the URI is listed and not among those skipped. */
  lemma {:induction false} UriResultsHold(mapping: QNames.NamespaceMapping, uris: seq<string>, retained: set<string>,
                                          uri: string)
    ensures ResolveUri(mapping, uri) in UriResults(mapping, uris, retained) <==> uri in uris && uri !in retained
    ensures forall r :: r in UriResults(mapping, uris, retained) ==>
      exists u :: u in uris && u !in retained && r == ResolveUri(mapping, u)
  {
    if |uris| > 0 {
      var init := uris[..|uris| - 1];
      UriResultsHold(mapping, init, retained, uri);
      assert uris == init + [uris[|uris| - 1]];
      var last := uris[|uris| - 1];
      if ResolveUri(mapping, uri) == ResolveUri(mapping, last) {
        assert uri == last;
      }
    }
  }

  /**
   * Resolving a request: every retained prefix gives its result, in order and first; a retained URI gives a
   * result exactly when no retained prefix resolved to it; a prefix or URI the mapping lacks gives a failure
   * rather than being dropped; nothing else is listed; and only an empty request gives no result.
   */
  lemma ResolutionProperties(request: Request, mapping: QNames.NamespaceMapping, uri: string)
    ensures var results := Resolution(request, mapping);
      |request.retainPrefixes| <= |results| &&
      forall i :: 0 <= i < |request.retainPrefixes| ==> results[i] == ResolvePrefix(mapping, request.retainPrefixes[i])
    ensures var results := Resolution(request, mapping);
      uri in request.retainUris ==>
        (ResolveUri(mapping, uri) in results[|request.retainPrefixes|..] <==>
         !exists p :: p in request.retainPrefixes && mapping.Uri(p) == Some(uri))
    ensures var results := Resolution(request, mapping);
      forall p :: p in request.retainPrefixes && mapping.Uri(p).None? ==>
        Failure(Exception("NamespaceException", p)) in results
    ensures var results := Resolution(request, mapping);
      forall r :: r in results ==>
        (exists p :: p in request.retainPrefixes && r == ResolvePrefix(mapping, p)) ||
        (exists u :: u in request.retainUris && r == ResolveUri(mapping, u))
    ensures Resolution(request, mapping) == [] <==> request.retainPrefixes == [] && request.retainUris == []
  {
    var prefixes := request.retainPrefixes;
    var prefixResults := PrefixResults(mapping, prefixes);
    var retained := RetainedUris(prefixResults);
    var uriResults := UriResults(mapping, request.retainUris, retained);
    var results := Resolution(request, mapping);
    assert results[..|prefixes|] == prefixResults && results[|prefixes|..] == uriResults;
    forall i | 0 <= i < |prefixes|
      ensures results[i] == ResolvePrefix(mapping, prefixes[i])
    {
      PrefixResultsAt(mapping, prefixes, i);
    }
    RetainedUrisOfPrefixes(mapping, prefixes, uri);
    UriResultsHold(mapping, request.retainUris, retained, uri);
    forall p | p in prefixes && mapping.Uri(p).None?
      ensures Failure(Exception("NamespaceException", p)) in results
    {
      var i :| 0 <= i < |prefixes| && prefixes[i] == p;
      assert results[i] == ResolvePrefix(mapping, p);
    }
    forall r | r in results
      ensures (exists p :: p in prefixes && r == ResolvePrefix(mapping, p)) ||
              (exists u :: u in request.retainUris && r == ResolveUri(mapping, u))
    {
      var i :| 0 <= i < |results| && results[i] == r;
      if i < |prefixes| {
        assert prefixes[i] in prefixes;
      } else {
        assert r in uriResults;
        UriResultsHold(mapping, request.retainUris, retained, uri);
      }
    }
    if prefixes == [] && request.retainUris != [] {
      var u := request.retainUris[0];
      RetainedUrisOfPrefixes(mapping, prefixes, u);
      UriResultsHold(mapping, request.retainUris, retained, u);
      assert ResolveUri(mapping, u) in results;
    }
  }

  /** `NamespaceMappingRequest.Builder`: the prefixes and URIs to retain, and whether built-ins are kept. */
  class Builder {
    var retainPrefixes: seq<string>
    var retainUris: seq<string>
    var retainBuiltins: bool

    /** The retained prefixes and URIs are sets. */
    ghost predicate Valid()
      reads this
    {
      Seqs.Distinct(retainPrefixes) && Seqs.Distinct(retainUris)
    }

    constructor()
      ensures Valid() && retainPrefixes == [] && retainUris == [] && !retainBuiltins
    {
      retainPrefixes := [];
      retainUris := [];
      retainBuiltins := false;
    }

    /** `withRetainPrefix` */
    method WithRetainPrefix(prefix: string)
      requires Valid()
      modifies `retainPrefixes
      ensures Valid() && retainPrefixes == Seqs.Added(old(retainPrefixes), prefix)
    {
      retainPrefixes := Seqs.Added(retainPrefixes, prefix);
    }

    /** `withRetainUri` */
    method WithRetainUri(uri: string)
      requires Valid()
      modifies `retainUris
      ensures Valid() && retainUris == Seqs.Added(old(retainUris), uri)
    {
      retainUris := Seqs.Added(retainUris, uri);
    }

    /** `withRetainBuiltins` */
    method WithRetainBuiltins(retain: bool)
      modifies `retainBuiltins
      ensures retainBuiltins == retain
    {
      retainBuiltins := retain;
    }

    /** `withQName`: the name's URI is retained, unless it is the default namespace. */
    method WithQName(name: JsonCnd.Name)
      requires Valid()
      modifies `retainUris
      ensures Valid()
      ensures name.namespaceUri == JsonCnd.NsDefaultUri ==> retainUris == old(retainUris)
      ensures name.namespaceUri != JsonCnd.NsDefaultUri ==> retainUris == Seqs.Added(old(retainUris), name.namespaceUri)
    {
      if name.namespaceUri != JsonCnd.NsDefaultUri {
        retainUris := Seqs.Added(retainUris, name.namespaceUri);
      }
    }

    /** `withJCRName`: the URI of an expanded name is retained, otherwise the prefix, if the name has one. */
    method WithJCRName(jcrName: string)
      requires Valid()
      modifies `retainPrefixes, `retainUris
      ensures Valid()
      ensures match JcrNameRetention(jcrName)
        case RetainUri(uri) =>
          retainUris == Seqs.Added(old(retainUris), uri) && retainPrefixes == old(retainPrefixes)
        case RetainPrefixes(prefixes) =>
          retainPrefixes == Seqs.AddAll(old(retainPrefixes), prefixes) && retainUris == old(retainUris)
    {
      var closeBrace := JavaString.IndexOf(jcrName, '}');
      if closeBrace > 1 && JavaString.StartsWith(jcrName, "{") {
        var uri := jcrName[1..closeBrace];
        retainUris := Seqs.Added(retainUris, uri);
      } else {
        retainPrefixes := Seqs.AddAll(retainPrefixes, JsonCnd.StreamNsPrefix(jcrName));
      }
    }

    /** `build` */
    method Build() returns (r: Request)
      ensures r == NewRequest(retainPrefixes, retainUris, retainBuiltins)
    {
      r := NewRequest(retainPrefixes, retainUris, retainBuiltins);
    }
  }

  /** A request built from nothing resolves to no result, whatever the mapping. */
  lemma EmptyBuilderResolvesEmpty(mapping: QNames.NamespaceMapping)
    ensures Resolution(NewRequest([], [], false), mapping) == []
    ensures Resolution(NewRequest([], [], true), mapping) == []
  {
    ResolutionProperties(NewRequest([], [], false), mapping, "");
  }

  /** A built-in prefix asked for by name is dropped unless built-ins are retained, so it is never resolved. */
  lemma BuiltinPrefixDropped(prefixes: seq<string>, uris: seq<string>, mapping: QNames.NamespaceMapping)
    requires "jcr" in prefixes
    ensures "jcr" !in NewRequest(prefixes, uris, false).retainPrefixes
    ensures "jcr" in NewRequest(prefixes, uris, true).retainPrefixes
  {
    assert "jcr" in BuiltinPrefixes;
  }
}
