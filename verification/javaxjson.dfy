/**
 * The javax.json value model and the three-letter DSL built over it: `wrap`/`unwrap` between Java values and
 * JSON values, the emptiness and default predicates used to omit keys, the `Obj` and `Arr` builders, and the
 * typed accessors for keys of an object.
 */
module JavaxJson {
  import opened Wrappers
  import opened JavaResult

  /** A JSON value. Objects are maps from key to value, as `JsonObject` is. */
  datatype Json =
    | JNull
    | JTrue
    | JFalse
    | JNumber(n: int)
    | JString(s: string)
    | JArray(items: seq<Json>)
    | JObject(fields: map<string, Json>)

  const EmptyObject: Json := JObject(map[])
  const EmptyArray: Json := JArray([])

  /**
   * The Java values `wrap` accepts: null, booleans, strings, integral numbers, collections, maps with string
   * keys, values that are already JSON (including the DSL's own `Obj`, `Arr` and `Value` and the
   * JSON-convertible types, by their JSON form), and any other object, by its `String.valueOf` text.
   */
  datatype JavaValue =
    | JvNull
    | JvBool(b: bool)
    | JvString(s: string)
    | JvInt(i: int)
    | JvList(items: seq<JavaValue>)
    | JvMap(entries: map<string, JavaValue>)
    | JvJson(json: Json)
    | JvOther(text: string)

  /** `nonEmptyValue`: false for null, JSON null, an empty array and an empty object. */
  predicate NonEmptyValue(value: Option<Json>) {
    !(value.None? || value.value == JNull || value.value == EmptyArray || value.value == EmptyObject)
  }

  /** `nonDefaultValue`: the value differs from the default. */
  predicate NonDefaultValue(value: Option<Json>, defaultValue: Json) {
    value != Some(defaultValue)
  }

  lemma NonEmptyValueCases(value: Option<Json>)
    ensures !NonEmptyValue(value) <==>
      (value.None? || value.value.JNull? || (value.value.JArray? && |value.value.items| == 0) ||
       (value.value.JObject? && |value.value.fields| == 0))
  {
    if value.Some? && value.value.JObject? && |value.value.fields| == 0 {
      assert value.value.fields == map[];
    }
  }

  function Wrap(v: JavaValue): (j: Json)
    ensures j == JNull <==> (v.JvNull? || (v.JvJson? && v.json == JNull))
  {
    match v
    case JvNull => JNull
    case JvBool(b) => if b then JTrue else JFalse
    case JvString(s) => JString(s)
    case JvInt(i) => JNumber(i)
    case JvList(items) => JArray(seq(|items|, i requires 0 <= i < |items| => Wrap(items[i])))
    case JvMap(entries) => JObject(map k | k in entries :: Wrap(entries[k]))
    case JvJson(json) => json
    case JvOther(text) => JString(text)
  }

  /** No object inside the value, at any depth, holds a JSON null member. */
  predicate NoNullMembers(j: Json) {
    match j
    case JArray(items) => forall i :: 0 <= i < |items| ==> NoNullMembers(items[i])
    case JObject(fields) => forall k :: k in fields ==> fields[k] != JNull && NoNullMembers(fields[k])
    case _ => true
  }

  /**
   * `unwrap`: JSON null becomes null, an array a list of its unwrapped items, an object a map of its unwrapped
   * members. The map is gathered with `Collectors.toMap`, which refuses a null value, so an object holding a
   * JSON null member, however deep, throws a `NullPointerException`.
   */
  function Unwrap(j: Json): (r: Result<JavaValue>)
    ensures r.Success? <==> NoNullMembers(j)
    ensures r.Failure? ==> r.error == NullPointer
    ensures r.Success? ==> (r.value == JvNull <==> j == JNull)
  {
    match j
    case JNull => Success(JvNull)
    case JTrue => Success(JvBool(true))
    case JFalse => Success(JvBool(false))
    case JNumber(n) => Success(JvInt(n))
    case JString(s) => Success(JvString(s))
    case JArray(items) =>
      if forall i :: 0 <= i < |items| ==> Unwrap(items[i]).Success? then
        Success(JvList(seq(|items|, i requires 0 <= i < |items| => Unwrap(items[i]).value)))
      else
        Failure(NullPointer)
    case JObject(fields) =>
      if forall k :: k in fields ==> Unwrap(fields[k]).Success? && Unwrap(fields[k]).value != JvNull then
        Success(JvMap(map k | k in fields :: Unwrap(fields[k]).value))
      else
        Failure(NullPointer)
  }

  /** `{"a": null}` throws when unwrapped, and so does an array holding it. */
  lemma NullMemberThrows()
    ensures Unwrap(JObject(map["a" := JNull])) == Failure(NullPointer)
    ensures Unwrap(JArray([JObject(map["a" := JNull])])) == Failure(NullPointer)
  {
    var obj := JObject(map["a" := JNull]);
    assert "a" in obj.fields && obj.fields["a"] == JNull;
    assert JArray([obj]).items[0] == obj;
  }

  /** Plain Java data: no pre-built JSON and no arbitrary objects inside. */
  predicate PlainData(v: JavaValue) {
    match v
    case JvList(items) => forall i :: 0 <= i < |items| ==> PlainData(items[i])
    case JvMap(entries) => forall k :: k in entries ==> PlainData(entries[k])
    case JvJson(_) => false
    case JvOther(_) => false
    case _ => true
  }

  /** No map inside the value, at any depth, holds a null value. */
  predicate NoNullEntries(v: JavaValue) {
    match v
    case JvList(items) => forall i :: 0 <= i < |items| ==> NoNullEntries(items[i])
    case JvMap(entries) => forall k :: k in entries ==> entries[k] != JvNull && NoNullEntries(entries[k])
    case _ => true
  }

  /** Wrapping keeps a null map value as a JSON null member, and adds none. */
  lemma {:induction false} WrapNullMembers(v: JavaValue)
    requires PlainData(v)
    ensures NoNullMembers(Wrap(v)) <==> NoNullEntries(v)
  {
    match v
    case JvList(items) =>
      var ws := Wrap(v).items;
      forall i | 0 <= i < |items| ensures NoNullMembers(ws[i]) <==> NoNullEntries(items[i]) {
        WrapNullMembers(items[i]);
      }
    case JvMap(entries) =>
      var fs := Wrap(v).fields;
      assert fs.Keys == entries.Keys;
      forall k | k in entries
        ensures (fs[k] != JNull && NoNullMembers(fs[k])) <==> (entries[k] != JvNull && NoNullEntries(entries[k]))
      {
        WrapNullMembers(entries[k]);
      }
    case _ =>
  }

  /**
   * `unwrap` reverses `wrap` for plain data whose maps hold no null; a map holding a null, at any depth, wraps
   * to an object that `unwrap` refuses.
   */
  lemma {:induction false} UnwrapWrap(v: JavaValue)
    requires PlainData(v)
    ensures NoNullEntries(v) ==> Unwrap(Wrap(v)) == Success(v)
    ensures !NoNullEntries(v) ==> Unwrap(Wrap(v)) == Failure(NullPointer)
  {
    WrapNullMembers(v);
    match v
    case JvList(items) =>
      var ws := Wrap(v).items;
      forall i | 0 <= i < |items| && NoNullEntries(v) ensures Unwrap(ws[i]) == Success(items[i]) {
        UnwrapWrap(items[i]);
      }
      if NoNullEntries(v) {
        assert Unwrap(Wrap(v)).value.items == items;
      }
    case JvMap(entries) =>
      var fs := Wrap(v).fields;
      assert fs.Keys == entries.Keys;
      forall k | k in entries && NoNullEntries(v) ensures Unwrap(fs[k]) == Success(entries[k]) {
        UnwrapWrap(entries[k]);
      }
      if NoNullEntries(v) {
        assert Unwrap(Wrap(v)).value.entries == entries;
      }
    case _ =>
  }

  /**
   * `wrap` reverses `unwrap` for every JSON value `unwrap` accepts, which is every value without a null object
   * member; the Java value unwrapped is plain data whose maps hold no null.
   */
  lemma {:induction false} WrapUnwrap(j: Json)
    ensures Unwrap(j).Success? ==> Wrap(Unwrap(j).value) == j
    ensures Unwrap(j).Success? ==> PlainData(Unwrap(j).value) && NoNullEntries(Unwrap(j).value)
  {
    match j
    case JArray(items) =>
      forall i | 0 <= i < |items| && Unwrap(j).Success?
        ensures Wrap(Unwrap(items[i]).value) == items[i]
        ensures PlainData(Unwrap(items[i]).value) && NoNullEntries(Unwrap(items[i]).value)
      {
        WrapUnwrap(items[i]);
      }
    case JObject(fields) =>
      forall k | k in fields && Unwrap(j).Success?
        ensures Wrap(Unwrap(fields[k]).value) == fields[k]
        ensures PlainData(Unwrap(fields[k]).value) && NoNullEntries(Unwrap(fields[k]).value)
      {
        WrapUnwrap(fields[k]);
      }
    case _ =>
  }

  /** An argument of the DSL: a key cursor still waiting for its value, or any other Java value. */
  datatype DslArg = Cursor(key: string) | Plain(v: JavaValue)

  /** `val(value)`: a dangling cursor is an `IllegalArgumentException`; anything else is wrapped. */
  function ValueOf(arg: DslArg): (r: Result<Json>)
    ensures r.Failure? <==> arg.Cursor?
    ensures r.Failure? ==> r.error.className == "IllegalArgumentException"
    ensures arg.Plain? ==> r == Success(Wrap(arg.v))
  {
    match arg
    case Cursor(key) => Failure(Exception("IllegalArgumentException", "dangling cursor for key: " + key))
    case Plain(v) => Success(Wrap(v))
  }

  /** The object `Obj.get()` builds from its entries: each entry put in turn, a later one replacing an earlier one. */
  function BuildObject(entries: seq<(string, Json)>): map<string, Json> {
    if |entries| == 0 then map[]
    else
      var last := entries[|entries| - 1];
      BuildObject(entries[..|entries| - 1])[last.0 := last.1]
  }

  /** An object holding exactly the keys of some entries, a key taking the value of its last entry. */
  ghost predicate LastEntryWins(entries: seq<(string, Json)>, fields: map<string, Json>) {
    fields.Keys == (set i | 0 <= i < |entries| :: entries[i].0) &&
    forall i :: 0 <= i < |entries| ==>
      ((forall j :: i < j < |entries| ==> entries[j].0 != entries[i].0) ==> fields[entries[i].0] == entries[i].1)
  }

  /** The object built has exactly the entries' keys, and a key takes the value of its last entry. */
  lemma {:induction false} BuildObjectProperties(entries: seq<(string, Json)>)
    ensures LastEntryWins(entries, BuildObject(entries))
  {
    if |entries| > 0 {
      var init := entries[..|entries| - 1];
      var last := entries[|entries| - 1];
      BuildObjectProperties(init);
      LastEntryWinsSnoc(init, last, BuildObject(init));
      assert entries == init + [last];
    }
  }

  /** Putting one more entry keeps the last entry of every key winning. */
  lemma LastEntryWinsSnoc(init: seq<(string, Json)>, last: (string, Json), fields: map<string, Json>)
    requires LastEntryWins(init, fields)
    ensures LastEntryWins(init + [last], fields[last.0 := last.1])
  {
    var entries := init + [last];
    assert forall i :: 0 <= i < |init| ==> entries[i] == init[i];
    assert entries[|init|] == last;
    assert (set i | 0 <= i < |entries| :: entries[i].0) == (set i | 0 <= i < |init| :: init[i].0) + {last.0};
  }

  /** The DSL's object builder: an ordered list of key/value entries, duplicates kept. */
  class Obj {
    var entries: seq<(string, Json)>

    constructor ()
      ensures entries == []
    {
      entries := [];
    }

    /** `key(key, value)`: appends the entry; a dangling cursor value throws and leaves the object as it was. */
    method Key(key: string, value: DslArg) returns (r: Result<()>)
      modifies this
      ensures r.Failure? <==> value.Cursor?
      ensures r.Success? ==> entries == old(entries) + [(key, Wrap(value.v))]
      ensures r.Failure? ==> entries == old(entries)
    {
      var wrapped := ValueOf(value);
      match wrapped
      case Success(j) =>
        entries := entries + [(key, j)];
        r := Success(());
      case Failure(e) =>
        r := Failure(e);
    }

    /** `key(key).opt(value)`: appends the entry only when the wrapped value is non-empty. */
    method Opt(key: string, value: JavaValue)
      modifies this
      ensures NonEmptyValue(Some(Wrap(value))) ==> entries == old(entries) + [(key, Wrap(value))]
      ensures !NonEmptyValue(Some(Wrap(value))) ==> entries == old(entries)
    {
      var wrapped := Wrap(value);
      if NonEmptyValue(Some(wrapped)) {
        entries := entries + [(key, wrapped)];
      }
    }

    /** `key(key).opt(value, ifNotValue)`: appends the entry only when it differs from the default. */
    method OptOr(key: string, value: JavaValue, ifNotValue: JavaValue)
      modifies this
      ensures Wrap(value) != Wrap(ifNotValue) ==> entries == old(entries) + [(key, Wrap(value))]
      ensures Wrap(value) == Wrap(ifNotValue) ==> entries == old(entries)
    {
      var wrapped := Wrap(value);
      var wrappedDefault := Wrap(ifNotValue);
      if NonDefaultValue(Some(wrapped), wrappedDefault) {
        entries := entries + [(key, wrapped)];
      }
    }

    /** `get()`: the JSON object; for a repeated key the last entry wins. */
    function Get(): (j: Json)
      reads this
      ensures j.JObject?
      ensures j.fields.Keys == set i | 0 <= i < |entries| :: entries[i].0
    {
      BuildObjectProperties(entries);
      JObject(BuildObject(entries))
    }

    /** `arrKeys()`: every key in entry order, duplicates included. */
    function ArrKeys(): (keys: seq<Json>)
      reads this
      ensures |keys| == |entries|
      ensures forall i :: 0 <= i < |entries| ==> keys[i] == JString(entries[i].0)
    {
      seq(|entries|, i reads this requires 0 <= i < |entries| => JString(entries[i].0))
    }
  }

  /** The DSL's array builder. */
  class Arr {
    var values: seq<Json>

    constructor ()
      ensures values == []
    {
      values := [];
    }

    method Val(value: DslArg) returns (r: Result<()>)
      modifies this
      ensures r.Failure? <==> value.Cursor?
      ensures r.Success? ==> values == old(values) + [Wrap(value.v)]
      ensures r.Failure? ==> values == old(values)
    {
      var wrapped := ValueOf(value);
      match wrapped
      case Success(j) =>
        values := values + [j];
        r := Success(());
      case Failure(e) =>
        r := Failure(e);
    }

    method Opt(value: JavaValue)
      modifies this
      ensures NonEmptyValue(Some(Wrap(value))) ==> values == old(values) + [Wrap(value)]
      ensures !NonEmptyValue(Some(Wrap(value))) ==> values == old(values)
    {
      var wrapped := Wrap(value);
      if NonEmptyValue(Some(wrapped)) {
        values := values + [wrapped];
      }
    }

    method OptOr(value: JavaValue, ifNotValue: JavaValue)
      modifies this
      ensures Wrap(value) != Wrap(ifNotValue) ==> values == old(values) + [Wrap(value)]
      ensures Wrap(value) == Wrap(ifNotValue) ==> values == old(values)
    {
      var wrapped := Wrap(value);
      if NonDefaultValue(Some(wrapped), Wrap(ifNotValue)) {
        values := values + [wrapped];
      }
    }

    function Get(): Json
      reads this
    {
      JArray(values)
    }
  }

  /** `optObject`: the value for `key` when it is an object. */
  function OptObject(json: map<string, Json>, key: string): (r: Option<map<string, Json>>)
    ensures r.Some? <==> key in json && json[key].JObject?
    ensures r.Some? ==> r.value == json[key].fields
  {
    if key in json && json[key].JObject? then Some(json[key].fields) else None
  }

  /** `objectOrEmpty`: the object for `key`, or the empty object. */
  function ObjectOrEmpty(json: map<string, Json>, key: string): (r: map<string, Json>)
    ensures key in json && json[key].JObject? ==> r == json[key].fields
    ensures !(key in json && json[key].JObject?) ==> r == map[]
  {
    OptObject(json, key).GetOrElse(map[])
  }

  function OptArray(json: map<string, Json>, key: string): (r: Option<seq<Json>>)
    ensures r.Some? <==> key in json && json[key].JArray?
    ensures r.Some? ==> r.value == json[key].items
  {
    if key in json && json[key].JArray? then Some(json[key].items) else None
  }

  /** `arrayOrEmpty`: the array for `key`, or the empty array. */
  function ArrayOrEmpty(json: map<string, Json>, key: string): (r: seq<Json>)
    ensures key in json && json[key].JArray? ==> r == json[key].items
    ensures !(key in json && json[key].JArray?) ==> r == []
  {
    OptArray(json, key).GetOrElse([])
  }

  /** The strings of an array, in order; every other element is skipped. */
  function StringsOf(items: seq<Json>): (r: seq<string>)
    ensures |r| <= |items|
    ensures forall s :: s in r <==> JString(s) in items
    ensures |items| == 1 ==> r == if items[0].JString? then [items[0].s] else []
  {
    if |items| == 0 then []
    else (if items[0].JString? then [items[0].s] else []) + StringsOf(items[1..])
  }

  /** The strings of two arrays joined are those of the first, then those of the second: the order is kept. */
  lemma {:induction false} StringsOfAppend(a: seq<Json>, b: seq<Json>)
    ensures StringsOf(a + b) == StringsOf(a) + StringsOf(b)
  {
    if |a| > 0 {
      StringsOfAppend(a[1..], b);
      assert (a + b)[1..] == a[1..] + b;
    } else {
      assert a + b == b;
    }
  }

  /** The objects of an array, in order; every other element is skipped. */
  function ObjectsOf(items: seq<Json>): (r: seq<map<string, Json>>)
    ensures |r| <= |items|
    ensures forall o :: o in r <==> JObject(o) in items
    ensures |items| == 1 ==> r == if items[0].JObject? then [items[0].fields] else []
  {
    if |items| == 0 then []
    else (if items[0].JObject? then [items[0].fields] else []) + ObjectsOf(items[1..])
  }

  /** The objects of two arrays joined are those of the first, then those of the second: the order is kept. */
  lemma {:induction false} ObjectsOfAppend(a: seq<Json>, b: seq<Json>)
    ensures ObjectsOf(a + b) == ObjectsOf(a) + ObjectsOf(b)
  {
    if |a| > 0 {
      ObjectsOfAppend(a[1..], b);
      assert (a + b)[1..] == a[1..] + b;
    } else {
      assert a + b == b;
    }
  }

  /**
   * `mapArrayOfStrings(array, f, discardNulls)`: `f` applied to each string element in order; a null array is
   * empty, and with `discardNulls` the null results are dropped.
   */
  function MapArrayOfStrings<R>(jsonArray: Option<seq<Json>>, f: string -> Option<R>, discardNulls: bool)
    : (r: seq<Option<R>>)
    ensures !discardNulls ==> |r| == |StringsOf(jsonArray.GetOrElse([]))|
    ensures !discardNulls ==> forall i :: 0 <= i < |r| ==> r[i] == f(StringsOf(jsonArray.GetOrElse([]))[i])
    ensures discardNulls ==> r == DropNone(MapArrayOfStrings(jsonArray, f, false))
  {
    var strings := StringsOf(jsonArray.GetOrElse([]));
    var mapped := seq(|strings|, i requires 0 <= i < |strings| => f(strings[i]));
    if discardNulls then DropNone(mapped) else mapped
  }

  /** `mapArrayOfObjects(array, f, discardNulls)`, over the object elements. */
  function MapArrayOfObjects<R>(jsonArray: Option<seq<Json>>, f: map<string, Json> -> Option<R>,
                                discardNulls: bool): (r: seq<Option<R>>)
    ensures !discardNulls ==> |r| == |ObjectsOf(jsonArray.GetOrElse([]))|
    ensures !discardNulls ==> forall i :: 0 <= i < |r| ==> r[i] == f(ObjectsOf(jsonArray.GetOrElse([]))[i])
    ensures discardNulls ==> r == DropNone(MapArrayOfObjects(jsonArray, f, false))
  {
    var objects := ObjectsOf(jsonArray.GetOrElse([]));
    var mapped := seq(|objects|, i requires 0 <= i < |objects| => f(objects[i]));
    if discardNulls then DropNone(mapped) else mapped
  }

  /** `filter(Objects::nonNull)`: the present results, in order. */
  function DropNone<R>(xs: seq<Option<R>>): (r: seq<Option<R>>)
    ensures |r| <= |xs|
    ensures forall i :: 0 <= i < |r| ==> r[i].Some? && r[i] in xs
    ensures forall x :: x in xs && x.Some? ==> x in r
    ensures |xs| == 1 ==> r == if xs[0].Some? then xs else []
  {
    if |xs| == 0 then []
    else (if xs[0].Some? then [xs[0]] else []) + DropNone(xs[1..])
  }

  /** The present results of two lists joined are those of the first, then those of the second. */
  lemma {:induction false} DropNoneAppend<R>(a: seq<Option<R>>, b: seq<Option<R>>)
    ensures DropNone(a + b) == DropNone(a) + DropNone(b)
  {
    if |a| > 0 {
      DropNoneAppend(a[1..], b);
      assert (a + b)[1..] == a[1..] + b;
    } else {
      assert a + b == b;
    }
  }

  /** `hasNonNull`: the key is present and its value is not JSON null. */
  predicate HasNonNull(json: map<string, Json>, key: string) {
    key in json && json[key] != JNull
  }
}
