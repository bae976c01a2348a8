/**
 * Qualified names of node types and privileges: parsed from the prefixed form `prefix:local` or the expanded
 * form `{uri}local` against a namespace mapping, printed back, and compared by type, local name and URI.
 */
module QNames {
  import opened Wrappers
  import opened JavaResult
  import JavaString

  /**
   * A namespace mapping in both directions. A prefix or URI it does not map is the `NamespaceException` the
   * lookups throw.
   */
  datatype NamespaceMapping = NamespaceMapping(prefixToUri: map<string, string>, uriToPrefix: map<string, string>) {
    /** `getURI(prefix)` */
    function Uri(prefix: string): Option<string> {
      if prefix in prefixToUri then Some(prefixToUri[prefix]) else None
    }

    /** `getPrefix(uri)` */
    function Prefix(uri: string): Option<string> {
      if uri in uriToPrefix then Some(uriToPrefix[uri]) else None
    }
  }

  /** The URIs of the built-in namespaces. */
  const JcrUri := "http://www.jcp.org/jcr/1.0"
  const NtUri := "http://www.jcp.org/jcr/nt/1.0"
  const XmlUri := "http://www.w3.org/XML/1998/namespace"
  const MixUri := "http://www.jcp.org/jcr/mix/1.0"
  const RepUri := "internal"
  const SvUri := "http://www.jcp.org/jcr/sv/1.0"
  const XmlnsUri := "http://www.w3.org/2000/xmlns/"
  const OakUri := "http://jackrabbit.apache.org/oak/ns/1.0"

  /** The built-in prefixes and their URIs: the empty namespace, the JCR ones, Oak's `rep`, `xmlns` and `oak`. */
  const BuiltinPrefixToUri: map<string, string> := map[
    "" := "",
    "jcr" := JcrUri,
    "nt" := NtUri,
    "xml" := XmlUri,
    "mix" := MixUri,
    "rep" := RepUri,
    "sv" := SvUri,
    "xmlns" := XmlnsUri,
    "oak" := OakUri]

  /** The built-in URIs and their prefixes. */
  const BuiltinUriToPrefix: map<string, string> := map[
    "" := "",
    JcrUri := "jcr",
    NtUri := "nt",
    XmlUri := "xml",
    MixUri := "mix",
    RepUri := "rep",
    SvUri := "sv",
    XmlnsUri := "xmlns",
    OakUri := "oak"]

  /** `BUILTIN_MAPPINGS`: the built-in prefixes mapped both ways. */
  const BuiltinMappings: NamespaceMapping := NamespaceMapping(BuiltinPrefixToUri, BuiltinUriToPrefix)

  /** The two directions of the built-in mappings are inverse to each other. */
  lemma BuiltinMappingsInverse()
    ensures forall p :: p in BuiltinPrefixToUri ==> BuiltinMappings.Prefix(BuiltinPrefixToUri[p]) == Some(p)
    ensures forall u :: u in BuiltinUriToPrefix ==> BuiltinMappings.Uri(BuiltinUriToPrefix[u]) == Some(u)
  {
    PrefixesInverse();
    UrisInverse();
  }

  lemma PrefixesInverse()
    ensures forall p :: p in BuiltinPrefixToUri ==> BuiltinUriToPrefix[BuiltinPrefixToUri[p]] == p
  {
  }

  lemma UrisInverse()
    ensures forall u :: u in BuiltinUriToPrefix ==> BuiltinPrefixToUri[BuiltinUriToPrefix[u]] == u
  {
  }

  datatype QNameType = Privilege | NodeType

  /** A qualified name; a prefix or URI that could not be resolved is absent, as Java's null. */
  datatype QName = QName(qtype: QNameType, prefix: Option<string>, localName: string, uri: Option<string>)

  /**
   * `parseQName`: a name with a colon is split at its first colon into prefix and local name, the URI being the
   * one mapped to the prefix; otherwise a name that starts with `{` and has a `}` is expanded, the URI being the
   * text between the braces and the prefix the one mapped to it; anything else is no name.
   */
  function ParseQName(mapping: NamespaceMapping, qtype: QNameType, text: string): (r: Option<QName>)
    ensures r.Some? <==> ':' in text || (JavaString.StartsWith(text, "{") && '}' in text)
  {
    if ':' in text then
      var parts := JavaString.SplitFirst(text, ':');
      Some(QName(qtype, Some(parts[0]), parts[1], mapping.Uri(parts[0])))
    else if JavaString.StartsWith(text, "{") && '}' in text then
      var brace := JavaString.IndexOf(text, '}');
      var uri := text[1..brace];
      Some(QName(qtype, mapping.Prefix(uri), text[brace + 1..], Some(uri)))
    else None
  }

  /** Java's text for a string that may be null. */
  function NullableText(s: Option<string>): string {
    match s
    case Some(v) => v
    case None => "null"
  }

  /** `toExpandedForm` */
  function ExpandedForm(q: QName): string {
    "{" + NullableText(q.uri) + "}" + q.localName
  }

  /** `toString`: the prefixed form when the prefix is known, else the expanded form. */
  function ToString(q: QName): string {
    match q.prefix
    case Some(p) => p + ":" + q.localName
    case None => ExpandedForm(q)
  }

  /**
   * Any colon selects the prefixed form, split at the first colon, and a prefix the mapping does not know
   * gives a name without a URI rather than an error.
   */
  lemma ParsePrefixed(mapping: NamespaceMapping, qtype: QNameType, text: string)
    requires ':' in text
    ensures var k := JavaString.IndexOf(text, ':');
      ParseQName(mapping, qtype, text) == Some(QName(qtype, Some(text[..k]), text[k + 1..], mapping.Uri(text[..k])))
    ensures var k := JavaString.IndexOf(text, ':');
      mapping.Uri(text[..k]).None? ==> ParseQName(mapping, qtype, text).value.uri.None?
  {
  }

  /** The expanded form applies only to a name without a colon. */
  lemma ParseExpanded(mapping: NamespaceMapping, qtype: QNameType, text: string)
    requires ':' !in text && JavaString.StartsWith(text, "{") && '}' in text
    ensures var k := JavaString.IndexOf(text, '}');
      k >= 1 && ParseQName(mapping, qtype, text) ==
        Some(QName(qtype, mapping.Prefix(text[1..k]), text[k + 1..], Some(text[1..k])))
  {
    assert text[..1] == "{";
    assert text[0] == '{';
  }

  /** Printing a prefixed name and parsing it again gives it back, when its prefix maps to its URI. */
  lemma PrefixedRoundTrip(mapping: NamespaceMapping, q: QName)
    requires q.prefix.Some? && ':' !in q.prefix.value
    requires mapping.Uri(q.prefix.value) == q.uri
    ensures ParseQName(mapping, q.qtype, ToString(q)) == Some(q)
  {
    var p := q.prefix.value;
    var text := ToString(q);
    assert text == p + [':'] + q.localName;
    JavaString.IndexOfAfter(p, ':', q.localName);
    assert text[..|p|] == p && text[|p| + 1..] == q.localName;
  }

  /**
   * Printing a name without a prefix and parsing it again gives it back, when its URI has no colon or closing
   * brace, its local name no colon, and the mapping has no prefix for the URI.
   */
  lemma ExpandedRoundTrip(mapping: NamespaceMapping, q: QName)
    requires q.prefix.None? && q.uri.Some? && ':' !in q.uri.value && '}' !in q.uri.value
    requires ':' !in q.localName && mapping.Prefix(q.uri.value).None?
    ensures ParseQName(mapping, q.qtype, ToString(q)) == Some(q)
  {
    var u := q.uri.value;
    var head := ['{'] + u;
    var text := head + ['}'] + q.localName;
    assert ToString(q) == text;
    assert ':' !in text by {
      assert forall i :: 0 <= i < |text| ==> text[i] == (if i < |head| then head[i] else if i == |head| then '}'
        else q.localName[i - |head| - 1]);
    }
    assert text[..1] == "{";
    JavaString.IndexOfAfter(head, '}', q.localName);
    assert text[1..|head|] == u;
    assert text[|head| + 1..] == q.localName;
  }

  /**
   * The expanded form of a name whose URI has a colon, as most URIs do, is not parsed as expanded: it is split at
   * the URI's first colon, the brace becoming part of the prefix.
   */
  lemma ExpandedWithColonSplits(mapping: NamespaceMapping, q: QName)
    requires q.prefix.None? && q.uri.Some? && ':' in q.uri.value
    ensures var u := q.uri.value;
      var k := JavaString.IndexOf(u, ':');
      ParseQName(mapping, q.qtype, ToString(q)).Some? &&
      ParseQName(mapping, q.qtype, ToString(q)).value.prefix == Some("{" + u[..k])
  {
    var u := q.uri.value;
    var k := JavaString.IndexOf(u, ':');
    var head := ['{'] + u[..k];
    var tail := u[k + 1..] + "}" + q.localName;
    assert u == u[..k] + [':'] + u[k + 1..];
    var text := head + [':'] + tail;
    assert ToString(q) == text;
    JavaString.IndexOfAfter(head, ':', tail);
    assert text[..|head|] == head;
  }

  /**
   * `equals` as written: the same object is equal to itself, and otherwise the types, local names and URIs are
   * compared in turn, stopping at the first difference; the URIs are compared with `uri.equals`, which throws
   * a `NullPointerException` when this name has no URI.
   */
  function EqualsAsWritten(a: QName, b: QName, sameObject: bool): (r: Result<bool>)
    requires sameObject ==> a == b
    ensures sameObject ==> r == Success(true)
    ensures r.Failure? <==> !sameObject && a.qtype == b.qtype && a.localName == b.localName && a.uri.None?
    ensures r.Failure? ==> r.error.className == "NullPointerException"
    ensures r.Success? ==> (r.value <==> a.qtype == b.qtype && a.localName == b.localName && a.uri == b.uri)
  {
    if sameObject then Success(true)
    else if a.qtype != b.qtype || a.localName != b.localName then Success(false)
    else if a.uri.None? then Failure(Exception("NullPointerException", ""))
    else Success(a.uri == b.uri)
  }

  /**
   * Two parses of the same prefixed name whose prefix the mapping does not know (`foo:bar` with no `foo`, say)
   * are distinct objects without a URI, and comparing them throws instead of answering true.
   */
  lemma UnknownPrefixEqualsThrows(mapping: NamespaceMapping, qtype: QNameType, prefix: string, localName: string)
    requires ':' !in prefix && mapping.Uri(prefix).None?
    ensures var q := ParseQName(mapping, qtype, prefix + ":" + localName);
      q.Some? && q.value.uri.None? && EqualsAsWritten(q.value, q.value, false).Failure?
  {
    var text := prefix + ":" + localName;
    assert text == prefix + [':'] + localName;
    assert text[|prefix|] == ':';
    JavaString.IndexOfAfter(prefix, ':', localName);
    assert text[..|prefix|] == prefix;
    ParsePrefixed(mapping, qtype, text);
  }

  /** `equals`, with the URIs compared null-safely as `hashCode` hashes them: the prefix plays no part. */
  predicate Equals(a: QName, b: QName) {
    a.qtype == b.qtype && a.localName == b.localName && a.uri == b.uri
  }

  /** The fields `hashCode` hashes. */
  function HashKey(q: QName): (QNameType, string, Option<string>) {
    (q.qtype, q.localName, q.uri)
  }

  /**
   * Equality is an equivalence that ignores the prefix and agrees with `hashCode`, and wherever the code as
   * written answers, it answers the same.
   */
  lemma EqualsContract(a: QName, b: QName, c: QName, sameObject: bool)
    requires sameObject ==> a == b
    ensures Equals(a, a)
    ensures Equals(a, b) ==> Equals(b, a)
    ensures Equals(a, b) && Equals(b, c) ==> Equals(a, c)
    ensures Equals(a, b) <==> HashKey(a) == HashKey(b)
    ensures Equals(a, a.(prefix := b.prefix))
    ensures EqualsAsWritten(a, b, sameObject).Success? ==> EqualsAsWritten(a, b, sameObject).value == Equals(a, b)
  {
  }
}
