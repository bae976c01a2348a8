/**
 * The violator maps of the expectation checks: for each expected or unexpected item, the packages it was
 * charged to, in a map that remembers the order in which items were first charged, and the MAJOR violations
 * reported from such a map at the end of a scan.
 */
module ViolatorMaps {
  import opened Violations

  /**
   * A path-to-violators map that remembers the order in which paths were first added, as a
   * `LinkedHashMap<String, List<PackageId>>` does.
   */
  datatype ViolatorMap<K(!new)> = ViolatorMap(keys: seq<K>, lists: map<K, seq<PackageId>>) {
    /** Every key is listed once, and exactly the keys of the map are listed. */
    ghost predicate Valid() {
      (forall i, j :: 0 <= i < j < |keys| ==> keys[i] != keys[j]) &&
      (forall p :: p in lists <==> p in keys)
    }

    /** The packages charged to `path`, none when the path has no list yet. */
    function Get(path: K): seq<PackageId> {
      if path in lists then lists[path] else []
    }
  }

  /** A map with no paths. */
  function EmptyMap<K(!new)>(): ViolatorMap<K> {
    ViolatorMap([], map[])
  }

  /**
   * `getViolatorListForExpectedPath`: the map with an empty list added for `path` when it has none, and the
   * list held for `path` in it.
   */
  function GetViolatorList<K(!new)>(m: ViolatorMap<K>, path: K): (r: (ViolatorMap<K>, seq<PackageId>))
    ensures path in r.0.lists && r.1 == r.0.lists[path] == m.Get(path)
    ensures path in m.lists ==> r.0 == m
    ensures path !in m.lists ==> r.0.keys == m.keys + [path] && r.1 == []
    ensures forall p :: p != path ==> (p in r.0.lists <==> p in m.lists) && r.0.Get(p) == m.Get(p)
    ensures m.Valid() ==> r.0.Valid()
  {
    if path in m.lists then (m, m.lists[path])
    else (ViolatorMap(m.keys + [path], m.lists[path := []]), [])
  }

  /** Asking twice for the same path creates the list only once and hands back the same list. */
  lemma GetViolatorListOnce<K(!new)>(m: ViolatorMap<K>, path: K)
    ensures var (first, list) := GetViolatorList(m, path);
      GetViolatorList(first, path) == (first, list)
  {
  }

  /** `getViolatorListForExpectedPath(map, path).add(packageId)`. */
  function Charge<K(!new)>(m: ViolatorMap<K>, path: K, id: PackageId): (r: ViolatorMap<K>)
    ensures r.Get(path) == m.Get(path) + [id]
    ensures forall p :: p != path ==> r.Get(p) == m.Get(p) && (p in r.lists <==> p in m.lists)
    ensures path in r.lists
    ensures r.keys == if path in m.lists then m.keys else m.keys + [path]
    ensures m.Valid() ==> r.Valid()
  {
    var (withList, list) := GetViolatorList(m, path);
    withList.(lists := withList.lists[path := list + [id]])
  }

  /** How often `x` occurs in `s`. */
  function Count<K(==,!new)>(s: seq<K>, x: K): (n: nat)
    ensures n <= |s|
    ensures n == 0 <==> x !in s
  {
    if |s| == 0 then 0
    else
      assert s == s[..|s| - 1] + [s[|s| - 1]];
      Count(s[..|s| - 1], x) + (if s[|s| - 1] == x then 1 else 0)
  }

  /** Counting over two sequences adds up. */
  lemma {:induction false} CountAppend<K(!new)>(a: seq<K>, b: seq<K>, x: K)
    ensures Count(a + b, x) == Count(a, x) + Count(b, x)
  {
    if |b| > 0 {
      var init := b[..|b| - 1];
      assert (a + b)[..|a + b| - 1] == a + init;
      assert (a + b)[|a + b| - 1] == b[|b| - 1];
      CountAppend(a, init, x);
    } else {
      assert a + b == a;
    }
  }

  /** `n` copies of a package id. */
  function Repeat(id: PackageId, n: nat): (r: seq<PackageId>)
    ensures |r| == n && forall i :: 0 <= i < n ==> r[i] == id
  {
    seq(n, _ => id)
  }

  /** One of the two loops of `afterExtract`: `id` is charged to each listed path that `charged` selects, in order. */
  function ChargeAll<K(!new)>(m: ViolatorMap<K>, paths: seq<K>, charged: K -> bool, id: PackageId): ViolatorMap<K>
  {
    if |paths| == 0 then m
    else
      var prior := ChargeAll(m, paths[..|paths| - 1], charged, id);
      var path := paths[|paths| - 1];
      if charged(path) then Charge(prior, path, id) else prior
  }

  /** A path is charged once for each time it is listed, and only when `charged` selects it; every other path keeps its list. */
  lemma {:induction false} ChargeAllLists<K(!new)>(m: ViolatorMap<K>, paths: seq<K>, charged: K -> bool, id: PackageId, p: K)
    ensures ChargeAll(m, paths, charged, id).Get(p) ==
            m.Get(p) + (if charged(p) then Repeat(id, Count(paths, p)) else [])
  {
    if |paths| > 0 {
      var init := paths[..|paths| - 1];
      var path := paths[|paths| - 1];
      ChargeAllLists(m, init, charged, id, p);
      if charged(p) && p == path {
        assert Repeat(id, Count(paths, p)) == Repeat(id, Count(init, p)) + [id];
      }
    }
  }

  /**
   * The paths with a list afterwards are those that had one and the charged paths; the paths seen before
   * keep their order, and the new ones follow in the order they were first charged.
   */
  lemma {:induction false} ChargeAllKeys<K(!new)>(m: ViolatorMap<K>, paths: seq<K>, charged: K -> bool, id: PackageId)
    ensures var r := ChargeAll(m, paths, charged, id);
      forall p :: p in r.lists <==> p in m.lists || (p in paths && charged(p))
    ensures m.keys <= ChargeAll(m, paths, charged, id).keys
    ensures m.Valid() ==> ChargeAll(m, paths, charged, id).Valid()
  {
    if |paths| > 0 {
      var init := paths[..|paths| - 1];
      assert paths == init + [paths[|paths| - 1]];
      ChargeAllKeys(m, init, charged, id);
    }
  }

  /** Charging along `a` and then along `b` is charging along `a + b`. */
  lemma {:induction false} ChargeAllAppend<K(!new)>(m: ViolatorMap<K>, a: seq<K>, b: seq<K>, charged: K -> bool, id: PackageId)
    ensures ChargeAll(m, a + b, charged, id) == ChargeAll(ChargeAll(m, a, charged, id), b, charged, id)
  {
    if |b| == 0 {
      assert a + b == a;
    } else {
      var init := b[..|b| - 1];
      assert (a + b)[..|a + b| - 1] == a + init;
      ChargeAllAppend(m, a, init, charged, id);
    }
  }

  /** The MAJOR violations reported for the keys `keys` of `m`, each described by `describe`. */
  function ReportsFor<K(!new)>(keys: seq<K>, m: ViolatorMap<K>, describe: K -> string): (r: seq<Violation>)
    ensures |r| <= |keys|
    ensures forall i :: 0 <= i < |r| ==> r[i].severity == Major && r[i].packages != []
  {
    if |keys| == 0 then []
    else
      var path := keys[|keys| - 1];
      ReportsFor(keys[..|keys| - 1], m, describe) +
        (if m.Get(path) != [] then [Violation(Major, describe(path), m.Get(path))] else [])
  }

  /** The violations reported for a whole map, in the map's key order. */
  function Reports<K(!new)>(m: ViolatorMap<K>, describe: K -> string): seq<Violation> {
    ReportsFor(m.keys, m, describe)
  }

  /** A violation is reported exactly for each listed path that was charged to at least one package. */
  lemma {:induction false} ReportsForExactly<K(!new)>(keys: seq<K>, m: ViolatorMap<K>, describe: K -> string, v: Violation)
    ensures v in ReportsFor(keys, m, describe) <==>
      exists path :: path in keys && m.Get(path) != [] && v == Violation(Major, describe(path), m.Get(path))
  {
    if |keys| > 0 {
      var init := keys[..|keys| - 1];
      assert keys == init + [keys[|keys| - 1]];
      ReportsForExactly(init, m, describe, v);
    }
  }

  /** Every charged path of a map gets its violation, and no other violation is reported. */
  lemma ReportsExactly<K(!new)>(m: ViolatorMap<K>, describe: K -> string, v: Violation)
    ensures v in Reports(m, describe) <==>
      exists path :: path in m.keys && m.Get(path) != [] && v == Violation(Major, describe(path), m.Get(path))
  {
    ReportsForExactly(m.keys, m, describe, v);
  }

  /** When no path was charged, nothing is reported. */
  lemma {:induction false} NothingChargedNothingReported<K(!new)>(keys: seq<K>, m: ViolatorMap<K>, describe: K -> string)
    requires forall p :: m.Get(p) == []
    ensures ReportsFor(keys, m, describe) == []
  {
    if |keys| > 0 {
      NothingChargedNothingReported(keys[..|keys| - 1], m, describe);
    }
  }

}
