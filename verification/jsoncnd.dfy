/**
 * The pieces of the JSON form of CND node type definitions that are not Jackrabbit I/O: the residual `*`
 * name, the key comparator that sorts residual names last, the namespace prefix of a JCR name, and the
 * boolean node type attributes written to and read from the `"@"` array.
 */
module JsonCnd {
  import opened Wrappers
  import opened JavaResult
  import JavaString
  import JavaxJson

  /** A Jackrabbit SPI name: a namespace URI and a local name. */
  datatype Name = Name(namespaceUri: string, localName: string)

  /** `Name.NS_DEFAULT_URI`, the empty namespace. */
  const NsDefaultUri: string := ""

  /** `TOKEN_RESIDUAL` */
  const TokenResidual: string := "*"

  /** `QNAME_RESIDUAL`: the residual token in the default namespace, as the CND reader resolves it. */
  const QNameResidual: Name := Name(NsDefaultUri, TokenResidual)

  /**
   * `jcrNameOrResidual(resolver)`: the residual name is written as `*` without asking the resolver, whose
   * `getJCRName` is the parameter `getJcrName`.
   */
  function JcrNameOrResidual(getJcrName: Name -> Result<string>, name: Name): Result<string> {
    if name == QNameResidual then Success(TokenResidual) else getJcrName(name)
  }

  /** `qNameOrResidual(resolver)`: `*` is read as the residual name without asking the resolver. */
  function QNameOrResidual(getQName: string -> Result<Name>, jcrName: string): Result<Name> {
    if jcrName == TokenResidual then Success(QNameResidual) else getQName(jcrName)
  }

  /**
   * The residual name and `*` map to each other whatever the resolver, and any other name makes the round
   * trip exactly when the resolver does.
   */
  lemma ResidualRoundTrip(getJcrName: Name -> Result<string>, getQName: string -> Result<Name>, name: Name)
    requires name == QNameResidual ||
      (getJcrName(name).Success? && getJcrName(name).value != TokenResidual &&
       getQName(getJcrName(name).value) == Success(name))
    ensures JcrNameOrResidual(getJcrName, name).Success?
    ensures QNameOrResidual(getQName, JcrNameOrResidual(getJcrName, name).value) == Success(name)
    ensures name == QNameResidual <==> JcrNameOrResidual(getJcrName, name) == Success(TokenResidual)
  {
  }

  /** `String.compareTo`: the difference of the first differing characters, else of the lengths. */
  function LexCompare(a: string, b: string): int {
    if |a| == 0 || |b| == 0 then |a| - |b|
    else if a[0] != b[0] then a[0] as int - b[0] as int
    else LexCompare(a[1..], b[1..])
  }

  /** `compareTo` is zero exactly on equal strings and changes sign when its arguments are swapped. */
  lemma {:induction false} LexCompareAntisymmetric(a: string, b: string)
    ensures LexCompare(a, b) == -LexCompare(b, a)
    ensures LexCompare(a, b) == 0 <==> a == b
  {
    if |a| > 0 && |b| > 0 && a[0] == b[0] {
      LexCompareAntisymmetric(a[1..], b[1..]);
      assert a == [a[0]] + a[1..] && b == [b[0]] + b[1..];
    }
  }

  /** `compareTo` orders strings transitively. */
  lemma {:induction false} LexCompareTransitive(a: string, b: string, c: string)
    requires LexCompare(a, b) < 0 && LexCompare(b, c) < 0
    ensures LexCompare(a, c) < 0
  {
    if |a| > 0 && |b| > 0 && |c| > 0 && a[0] == b[0] && b[0] == c[0] {
      LexCompareTransitive(a[1..], b[1..], c[1..]);
    }
  }

  /**
   * `COMPARATOR_PUSH_RESIDUALS`: `*` as the second argument is always greater, as the first argument
   * always smaller, and other strings compare as `compareTo` does. Comparing `*` with itself gives -1.
   */
  function ComparePushResiduals(s1: string, s2: string): int {
    if s2 == TokenResidual then -1
    else if s1 == TokenResidual then 1
    else LexCompare(s1, s2)
  }

  /**
   * On distinct strings the comparator is a strict total order: it puts `*` after every other string and
   * orders the others by `compareTo`.
   */
  lemma PushResidualsOrder(a: string, b: string, c: string)
    requires a != b && b != c && a != c
    ensures ComparePushResiduals(a, b) < 0 <==> ComparePushResiduals(b, a) > 0
    ensures ComparePushResiduals(a, b) != 0
    ensures ComparePushResiduals(a, b) < 0 && ComparePushResiduals(b, c) < 0 ==> ComparePushResiduals(a, c) < 0
    ensures b == TokenResidual ==> ComparePushResiduals(a, b) < 0
    ensures a != TokenResidual && b != TokenResidual ==>
      (ComparePushResiduals(a, b) < 0 <==> LexCompare(a, b) < 0)
  {
    LexCompareAntisymmetric(a, b);
    if ComparePushResiduals(a, b) < 0 && ComparePushResiduals(b, c) < 0 {
      if a != TokenResidual && b != TokenResidual && c != TokenResidual {
        LexCompareTransitive(a, b, c);
      }
    }
  }

  /**
   * `streamNsPrefix`: the text before the first colon, when `split(":")` gives more than one part; the
   * split drops trailing empty parts, so a name whose only text after its first colon is colons has none.
   */
  function StreamNsPrefix(name: string): (r: seq<string>)
    ensures |r| <= 1
  {
    var parts := JavaString.Split(name, ':');
    if |parts| > 1 then [parts[0]] else []
  }

  /** Every part is empty. */
  predicate AllEmpty(parts: seq<string>) {
    forall i :: 0 <= i < |parts| ==> parts[i] == ""
  }

  /** Every character is `c`. */
  predicate Only(s: string, c: char) {
    forall j :: 0 <= j < |s| ==> s[j] == c
  }

  lemma AllEmptyCons(x: string, tail: seq<string>)
    ensures AllEmpty([x] + tail) <==> x == "" && AllEmpty(tail)
  {
    var parts := [x] + tail;
    assert parts[0] == x;
    if x == "" && AllEmpty(tail) {
      forall i | 0 <= i < |parts|
        ensures parts[i] == ""
      {
        if i > 0 {
          assert parts[i] == tail[i - 1];
        }
      }
    }
    if AllEmpty(parts) {
      forall i | 0 <= i < |tail|
        ensures tail[i] == ""
      {
        assert tail[i] == parts[i + 1];
      }
    }
  }

  lemma OnlyCons(c: char, rest: string)
    ensures Only([c] + rest, c) <==> Only(rest, c)
  {
    var s := [c] + rest;
    if Only(s, c) {
      forall j | 0 <= j < |rest|
        ensures rest[j] == c
      {
        assert rest[j] == s[j + 1];
      }
    }
  }

  /** The pieces of a split are all empty exactly when every character is the separator. */
  lemma {:induction false} SplitAllEmptyPieces(s: string, c: char)
    ensures AllEmpty(JavaString.SplitAll(s, c)) <==> Only(s, c)
    decreases |s|
  {
    var k := JavaString.IndexOf(s, c);
    var pieces := JavaString.SplitAll(s, c);
    if k < 0 {
      if |s| > 0 {
        assert pieces[0] == s && s[0] != c;
      }
    } else {
      var rest := s[k + 1..];
      var tail := JavaString.SplitAll(rest, c);
      assert pieces == [s[..k]] + tail;
      if k > 0 {
        assert pieces[0] != "";
        assert s[0] == s[..k][0];
      } else {
        SplitAllEmptyPieces(rest, c);
        assert s == [c] + rest;
        AllEmptyCons(s[..k], tail);
        OnlyCons(c, rest);
      }
    }
  }

  /** Dropping the trailing empty parts leaves at most the first part when every later part is empty. */
  lemma DropEmptyTail(all: seq<string>)
    requires |all| >= 1 && forall i :: 1 <= i < |all| ==> all[i] == ""
    ensures |JavaString.DropTrailingEmpty(all)| <= 1
  {
  }

  /** Dropping the trailing empty parts keeps every part up to a non-empty one. */
  lemma DropKeepsNonEmpty(all: seq<string>, i: nat)
    requires i < |all| && all[i] != ""
    ensures |JavaString.DropTrailingEmpty(all)| > i && JavaString.DropTrailingEmpty(all)[0] == all[0]
  {
  }

  /** A name with a colon splits into the text before its first colon and the pieces of the rest. */
  lemma SplitAtFirstColon(name: string)
    requires ':' in name
    ensures var k := JavaString.IndexOf(name, ':');
      JavaString.SplitAll(name, ':') == [name[..k]] + JavaString.SplitAll(name[k + 1..], ':') &&
      JavaString.Split(name, ':') == JavaString.DropTrailingEmpty(JavaString.SplitAll(name, ':'))
  {
  }

  /** A split with a first part keeps more than that part exactly when some later part is not empty. */
  lemma DropAfterHead(head: string, tail: seq<string>)
    ensures var parts := JavaString.DropTrailingEmpty([head] + tail);
      (|parts| > 1 <==> !AllEmpty(tail)) && (|parts| > 1 ==> parts[0] == head)
  {
    var all := [head] + tail;
    if AllEmpty(tail) {
      assert forall i :: 1 <= i < |all| ==> all[i] == tail[i - 1];
      DropEmptyTail(all);
    } else {
      var i :| 0 <= i < |tail| && tail[i] != "";
      assert all[i + 1] == tail[i];
      DropKeepsNonEmpty(all, i + 1);
    }
  }

  /** With a colon in the name, a prefix is streamed exactly when something other than colons follows the first one. */
  lemma StreamNsPrefixSplit(name: string)
    requires ':' in name
    ensures var k := JavaString.IndexOf(name, ':');
      StreamNsPrefix(name) == if Only(name[k + 1..], ':') then [] else [name[..k]]
  {
    var k := JavaString.IndexOf(name, ':');
    var rest := name[k + 1..];
    var tail := JavaString.SplitAll(rest, ':');
    var parts := JavaString.Split(name, ':');
    SplitAtFirstColon(name);
    assert parts == JavaString.DropTrailingEmpty([name[..k]] + tail);
    SplitAllEmptyPieces(rest, ':');
    DropAfterHead(name[..k], tail);
    if Only(rest, ':') {
      assert |parts| <= 1;
    } else {
      assert |parts| > 1 && parts[0] == name[..k];
    }
  }

  /** Only colons follow position `k` exactly when the text after it is only colons. */
  lemma OnlyAfter(name: string, k: nat)
    requires k < |name|
    ensures Only(name[k + 1..], ':') <==> forall j :: k < j < |name| ==> name[j] == ':'
  {
    var rest := name[k + 1..];
    assert forall j :: k < j < |name| ==> name[j] == rest[j - k - 1];
  }

  /**
   * A name with a colon yields the text before its first colon when something other than colons follows
   * that colon, and nothing otherwise; a name without a colon yields nothing.
   */
  lemma StreamNsPrefixCases(name: string)
    ensures ':' !in name ==> StreamNsPrefix(name) == []
    ensures ':' in name ==>
      var k := JavaString.IndexOf(name, ':');
      (StreamNsPrefix(name) == [name[..k]] <==> exists j :: k < j < |name| && name[j] != ':') &&
      (StreamNsPrefix(name) == [] <==> forall j :: k < j < |name| ==> name[j] == ':')
  {
    if ':' in name {
      var k := JavaString.IndexOf(name, ':');
      StreamNsPrefixSplit(name);
      OnlyAfter(name, k);
    }
  }

  /** The flags of a node type definition that the `"@"` attributes stand for. */
  datatype TypeFlags = TypeFlags(isAbstract: bool, isMixin: bool, orderableChildNodes: bool, queryable: bool)

  /** A fresh `QNodeTypeDefinitionBuilder`: concrete, not a mixin, not orderable, queryable. */
  const DefaultFlags: TypeFlags := TypeFlags(false, false, false, true)

  /** `TypeDefinitionAttribute`: the attributes of a node type definition and their CND tokens. */
  datatype TypeDefinitionAttribute = Abstract | Mixin | Orderable | NoQuery | Unknown {
    /** The accepted tokens, the first being the one written; those of the CND lexer, and `?` for `UNKNOWN`. */
    function LexTokens(): (r: seq<string>)
      ensures |r| >= 1
    {
      match this
      case Abstract => ["abstract", "abs", "a"]
      case Mixin => ["mixin", "mix", "m"]
      case Orderable => ["orderable", "ord", "o"]
      case NoQuery => ["noquery", "nq"]
      case Unknown => ["?"]
    }

    /** `getToken` */
    function Token(): string {
      LexTokens()[0]
    }

    /** `nonUnknown` */
    predicate NonUnknown() {
      Token() != "?"
    }

    /** `isWritable`: the flag the attribute stands for is set; `UNKNOWN` never is. */
    predicate IsWritable(def: TypeFlags) {
      match this
      case Abstract => def.isAbstract
      case Mixin => def.isMixin
      case Orderable => def.orderableChildNodes
      case NoQuery => !def.queryable
      case Unknown => false
    }

    /** The builder's flags after `readTo`: the flag is set; `UNKNOWN` changes nothing. */
    function Read(def: TypeFlags): TypeFlags {
      match this
      case Abstract => def.(isAbstract := true)
      case Mixin => def.(isMixin := true)
      case Orderable => def.(orderableChildNodes := true)
      case NoQuery => def.(queryable := false)
      case Unknown => def
    }
  }

  /** `values()`, in declaration order. */
  const Values: seq<TypeDefinitionAttribute> := [Abstract, Mixin, Orderable, NoQuery, Unknown]

  /**
   * `UNKNOWN` is the only attribute that is not `nonUnknown`; it is never writable and reading it changes
   * nothing, while every other attribute reads as writable whatever the flags were.
   */
  lemma UnknownNeverWritable(attr: TypeDefinitionAttribute, def: TypeFlags)
    ensures attr.NonUnknown() <==> attr != Unknown
    ensures !Unknown.IsWritable(def) && Unknown.Read(def) == def
    ensures attr != Unknown ==> attr.IsWritable(attr.Read(def))
  {
  }

  /** One of the attribute's tokens equals `token`, ignoring case. */
  predicate Matches(attr: TypeDefinitionAttribute, token: string) {
    exists i :: 0 <= i < |attr.LexTokens()| && JavaString.EqualsIgnoreCase(attr.LexTokens()[i], token)
  }

  /** The first of `attrs` with a token matching `token`, or `UNKNOWN`. */
  function FirstMatching(attrs: seq<TypeDefinitionAttribute>, token: string): (r: TypeDefinitionAttribute)
    ensures r == Unknown || (r in attrs && Matches(r, token))
    ensures r == Unknown ==> forall i :: 0 <= i < |attrs| && Unknown !in attrs[..i + 1] ==> !Matches(attrs[i], token)
  {
    if |attrs| == 0 then Unknown
    else if Matches(attrs[0], token) then attrs[0]
    else
      assert forall i :: 1 <= i < |attrs| ==> attrs[..i + 1] == [attrs[0]] + attrs[1..][..i];
      FirstMatching(attrs[1..], token)
  }

  /** `forToken`: the first attribute, in declaration order, with a token equal to `token` ignoring case. */
  function ForToken(token: string): TypeDefinitionAttribute {
    FirstMatching(Values, token)
  }

  /** A lower-case text equals another ignoring case exactly when it is that other text lower-cased. */
  lemma LowerEqualsIgnoreCase(t: string, token: string)
    requires forall m :: 0 <= m < |t| ==> JavaString.ToLowerChar(t[m]) == t[m]
    ensures JavaString.EqualsIgnoreCase(t, token) <==> t == JavaString.ToLower(token)
  {
    if JavaString.EqualsIgnoreCase(t, token) {
      assert forall m :: 0 <= m < |t| ==> t[m] == JavaString.ToLower(token)[m];
    }
  }

  /** Every token of every attribute is written in lower case. */
  lemma TokensLower(attr: TypeDefinitionAttribute, k: nat)
    requires k < |attr.LexTokens()|
    ensures forall m :: 0 <= m < |attr.LexTokens()[k]| ==>
      JavaString.ToLowerChar(attr.LexTokens()[k][m]) == attr.LexTokens()[k][m]
  {
  }

  /** Every token is lower case, so matching one ignoring case is being equal to the lower-cased text. */
  lemma MatchesLower(attr: TypeDefinitionAttribute, token: string)
    ensures Matches(attr, token) <==> JavaString.ToLower(token) in attr.LexTokens()
  {
    var tokens := attr.LexTokens();
    var lower := JavaString.ToLower(token);
    forall k | 0 <= k < |tokens|
      ensures JavaString.EqualsIgnoreCase(tokens[k], token) <==> tokens[k] == lower
    {
      TokensLower(attr, k);
      LowerEqualsIgnoreCase(tokens[k], token);
    }
  }

  /** A known attribute is what `forToken` gives exactly when one of its tokens matches. */
  lemma ForTokenIff(token: string, attr: TypeDefinitionAttribute)
    requires attr != Unknown
    ensures ForToken(token) == attr <==> Matches(attr, token)
  {
    var r := ForToken(token);
    MatchesLower(attr, token);
    MatchesLower(r, token);
    var i := match attr case Abstract => 0 case Mixin => 1 case Orderable => 2 case NoQuery => 3 case Unknown => 4;
    assert Values[i] == attr && Unknown !in Values[..i + 1];
  }

  /** Two texts equal ignoring case are read as a known attribute together. */
  lemma ForTokenIgnoresCase(token: string, other: string, a: TypeDefinitionAttribute)
    requires JavaString.EqualsIgnoreCase(token, other)
    requires a != Unknown
    ensures ForToken(token) == a <==> ForToken(other) == a
    ensures ForToken(token) == a <==> Matches(a, token)
  {
    assert JavaString.ToLower(token) == JavaString.ToLower(other);
    ForTokenIff(token, a);
    ForTokenIff(other, a);
    MatchesLower(a, token);
    MatchesLower(a, other);
  }

  /**
   * `forToken` ignores case, gives `UNKNOWN` exactly when no known attribute has a matching token, and reads
   * every token of an attribute, its written one included, back as that attribute.
   */
  lemma ForTokenProperties(token: string, other: string, attr: TypeDefinitionAttribute, i: nat)
    requires JavaString.EqualsIgnoreCase(token, other)
    requires i < |attr.LexTokens()|
    ensures ForToken(token) == ForToken(other)
    ensures ForToken(token) == Unknown <==> forall a :: a != Unknown ==> !Matches(a, token)
    ensures ForToken(attr.LexTokens()[i]) == attr
    ensures ForToken(attr.Token()) == attr
  {
    forall a | a != Unknown
      ensures ForToken(token) == a <==> ForToken(other) == a
      ensures ForToken(token) == a <==> Matches(a, token)
    {
      ForTokenIgnoresCase(token, other, a);
    }
    LexTokenOwner(attr, i);
    LexTokenOwner(attr, 0);
  }

  /** Each token of an attribute is read back as that attribute. */
  lemma LexTokenOwner(attr: TypeDefinitionAttribute, i: nat)
    requires i < |attr.LexTokens()|
    ensures ForToken(attr.LexTokens()[i]) == attr
  {
    var t := attr.LexTokens()[i];
    if attr == Unknown {
      assert JavaString.ToLower(t) == t;
      var r := ForToken(t);
      if r != Unknown {
        ForTokenIff(t, r);
        MatchesLower(r, t);
      }
    } else {
      assert JavaString.EqualsIgnoreCase(t, t);
      ForTokenIff(t, attr);
    }
  }

  /** `getAttributeTokens` over `attrs`: the written token of each writable attribute, in order. */
  function WritableTokens(attrs: seq<TypeDefinitionAttribute>, def: TypeFlags): (r: seq<string>)
    ensures |r| <= |attrs|
  {
    if |attrs| == 0 then []
    else (if attrs[0].IsWritable(def) then [attrs[0].Token()] else []) + WritableTokens(attrs[1..], def)
  }

  /** `getAttributeTokens` */
  function GetAttributeTokens(def: TypeFlags): seq<string> {
    WritableTokens(Values, def)
  }

  /** How `readAttributes` leaves the builder: its flags, and the exception that stopped it, if any. */
  datatype ReadOutcome = ReadOutcome(def: TypeFlags, thrown: Option<Exception>)

  /**
   * The attribute a JSON array element reads as: a string by `forToken`, null by the
   * `NullPointerException` that printing it throws, and any other value, whose text is not a token, as
   * `UNKNOWN`.
   */
  function AttributeOf(value: JavaxJson.Json): Result<TypeDefinitionAttribute> {
    match value
    case JNull => Failure(NullPointer)
    case JString(s) => Success(ForToken(s))
    case _ => Success(Unknown)
  }

  /** Reading the array elements in order; the first that fails stops the reading. */
  function ReadItems(def: TypeFlags, items: seq<JavaxJson.Json>): ReadOutcome
    decreases |items|
  {
    if |items| == 0 then ReadOutcome(def, None)
    else
      match AttributeOf(items[0])
      case Failure(e) => ReadOutcome(def, Some(e))
      case Success(attr) => ReadItems(attr.Read(def), items[1..])
  }

  /** `readAttributes`: only an array is read. */
  function ReadAttributesOf(def: TypeFlags, attributesValue: JavaxJson.Json): ReadOutcome {
    if attributesValue.JArray? then ReadItems(def, attributesValue.items) else ReadOutcome(def, None)
  }

  /** The token strings among `items` name `attr`. */
  predicate Mentions(items: seq<JavaxJson.Json>, attr: TypeDefinitionAttribute) {
    exists i :: 0 <= i < |items| && AttributeOf(items[i]) == Success(attr)
  }

  /** A non-empty list names an attribute exactly when its first element or the rest does. */
  lemma MentionsCons(items: seq<JavaxJson.Json>, attr: TypeDefinitionAttribute)
    requires |items| > 0
    ensures Mentions(items, attr) <==> AttributeOf(items[0]) == Success(attr) || Mentions(items[1..], attr)
  {
    if Mentions(items[1..], attr) {
      var i :| 0 <= i < |items[1..]| && AttributeOf(items[1..][i]) == Success(attr);
      assert items[i + 1] == items[1..][i];
    }
    if Mentions(items, attr) {
      var i :| 0 <= i < |items| && AttributeOf(items[i]) == Success(attr);
      if i > 0 {
        assert items[1..][i - 1] == items[i];
      }
    }
  }

  /** Reading one attribute makes a known attribute writable exactly when it was already or is the one read. */
  lemma ReadStep(def: TypeFlags, a: TypeDefinitionAttribute, attr: TypeDefinitionAttribute)
    requires attr != Unknown
    ensures attr.IsWritable(a.Read(def)) <==> attr.IsWritable(def) || a == attr
  {
  }

  /**
   * Reading elements, none of them null, makes a known attribute writable exactly when it was already or
   * one of the elements names it, and throws nothing.
   */
  lemma {:induction false} ReadItemsWritable(def: TypeFlags, items: seq<JavaxJson.Json>, attr: TypeDefinitionAttribute)
    requires forall i :: 0 <= i < |items| ==> items[i] != JavaxJson.JNull
    requires attr != Unknown
    ensures ReadItems(def, items).thrown.None?
    ensures attr.IsWritable(ReadItems(def, items).def) <==> attr.IsWritable(def) || Mentions(items, attr)
    decreases |items|
  {
    if |items| > 0 {
      var a := AttributeOf(items[0]).value;
      assert ReadItems(def, items) == ReadItems(a.Read(def), items[1..]);
      ReadItemsWritable(a.Read(def), items[1..], attr);
      ReadStep(def, a, attr);
      MentionsCons(items, attr);
    }
  }

  /** The written tokens of the attributes among `attrs` that `items` name, in the order of `attrs`. */
  function MentionedTokens(attrs: seq<TypeDefinitionAttribute>, items: seq<JavaxJson.Json>): seq<string> {
    if |attrs| == 0 then []
    else
      (if attrs[0] != Unknown && Mentions(items, attrs[0]) then [attrs[0].Token()] else []) +
      MentionedTokens(attrs[1..], items)
  }

  lemma {:induction false} WritableMentioned(attrs: seq<TypeDefinitionAttribute>, def: TypeFlags,
                                             items: seq<JavaxJson.Json>)
    requires forall a :: a in attrs ==> (a.IsWritable(def) <==> a != Unknown && Mentions(items, a))
    ensures WritableTokens(attrs, def) == MentionedTokens(attrs, items)
  {
    if |attrs| > 0 {
      WritableMentioned(attrs[1..], def, items);
    }
  }

  /**
   * Reading an array of tokens into a fresh builder and writing the definition's attributes back gives the
   * written token of each attribute the array names, once each, in declaration order.
   */
  lemma ReadThenWriteTokens(items: seq<JavaxJson.Json>)
    requires forall i :: 0 <= i < |items| ==> items[i] != JavaxJson.JNull
    ensures ReadItems(DefaultFlags, items).thrown.None?
    ensures GetAttributeTokens(ReadItems(DefaultFlags, items).def) == MentionedTokens(Values, items)
  {
    var def := ReadItems(DefaultFlags, items).def;
    forall a | a in Values
      ensures a.IsWritable(def) <==> a != Unknown && Mentions(items, a)
    {
      if a != Unknown {
        ReadItemsWritable(DefaultFlags, items, a);
      }
    }
    if |items| == 0 {
    } else {
      ReadItemsWritable(DefaultFlags, items, Abstract);
    }
    WritableMentioned(Values, def, items);
  }

  /** A `QNodeTypeDefinitionBuilder`, as far as the attributes set its flags. */
  class NodeTypeDefinitionBuilder {
    var isAbstract: bool
    var isMixin: bool
    var orderableChildNodes: bool
    var queryable: bool

    function Flags(): TypeFlags
      reads this
    {
      TypeFlags(isAbstract, isMixin, orderableChildNodes, queryable)
    }

    constructor()
      ensures Flags() == DefaultFlags
    {
      isAbstract := false;
      isMixin := false;
      orderableChildNodes := false;
      queryable := true;
    }

    /** `attr.readTo(builder)` */
    method ReadTo(attr: TypeDefinitionAttribute)
      modifies this
      ensures Flags() == attr.Read(old(Flags()))
    {
      match attr
      case Abstract => isAbstract := true;
      case Mixin => isMixin := true;
      case Orderable => orderableChildNodes := true;
      case NoQuery => queryable := false;
      case Unknown =>
    }

    /**
     * `readAttributes(builder, attributesValue)`: each element of an array, in order, mapped to its
     * attribute and read into the builder; a null element throws.
     */
    method ReadAttributes(attributesValue: JavaxJson.Json) returns (thrown: Option<Exception>)
      modifies this
      ensures ReadOutcome(Flags(), thrown) == ReadAttributesOf(old(Flags()), attributesValue)
    {
      if !attributesValue.JArray? {
        return None;
      }
      var items := attributesValue.items;
      var i := 0;
      while i < |items|
        invariant 0 <= i <= |items|
        invariant ReadItems(Flags(), items[i..]) == ReadItems(old(Flags()), items)
      {
        assert items[i..][0] == items[i] && items[i..][1..] == items[i + 1..];
        var attr := AttributeOf(items[i]);
        if attr.Failure? {
          return Some(attr.error);
        }
        ReadTo(attr.value);
        i := i + 1;
      }
      return None;
    }
  }
}
