/**
 * Destination file names for the files an opear embeds: each file keeps the name its namer gives unless an
 * earlier file already took it, in which case it is numbered `base_N.ext` with the smallest free `N`. The
 * accumulator is an insertion-ordered map from destination name to file.
 */
module DestFileNames {
  import JavaString
  import Seqs

  /** A name's base and extension: the extension starts at the last dot, unless that dot is the first character. */
  function SplitName(name: string): (r: (string, string))
    ensures r.0 + r.1 == name
    ensures var lastDot := JavaString.LastIndexOf(name, '.');
      lastDot >= 1 ==> r.0 == name[..lastDot] && r.1 == name[lastDot..] && name[lastDot] == '.'
    ensures JavaString.LastIndexOf(name, '.') < 1 ==> r == (name, "")
  {
    var lastDot := JavaString.LastIndexOf(name, '.');
    if lastDot >= 1 then
      assert name == name[..lastDot] + name[lastDot..];
      (name[..lastDot], name[lastDot..])
    else (name, "")
  }

  /** The `n`-th name tried for `name`: the name itself, then `base_1.ext`, `base_2.ext`, ... */
  function Candidate(name: string, n: nat): string {
    if n == 0 then name
    else
      var parts := SplitName(name);
      parts.0 + "_" + JavaString.NatToString(n) + parts.1
  }

  /** Different attempts give different names. */
  lemma CandidateInjective(name: string, a: nat, b: nat)
    requires Candidate(name, a) == Candidate(name, b)
    ensures a == b
  {
    var parts := SplitName(name);
    if a != 0 && b != 0 {
      var sa := JavaString.NatToString(a);
      var sb := JavaString.NatToString(b);
      var ca := parts.0 + "_" + sa + parts.1;
      var cb := parts.0 + "_" + sb + parts.1;
      assert |sa| == |sb|;
      var lo := |parts.0| + 1;
      assert ca[lo..lo + |sa|] == sa;
      assert cb[lo..lo + |sb|] == sb;
      JavaString.NatToStringInjective(a, b);
    }
  }

  /** The first `c` attempts are `c` different names. */
  lemma {:induction false} CandidatesCount(name: string, c: nat)
    ensures |set m | 0 <= m < c :: Candidate(name, m)| == c
  {
    if c > 0 {
      CandidatesCount(name, c - 1);
      var before := set m | 0 <= m < c - 1 :: Candidate(name, m);
      var last := Candidate(name, c - 1);
      CandidatesSnoc(name, c);
      assert last !in before by {
        if last in before {
          var m :| 0 <= m < c - 1 && Candidate(name, m) == last;
          CandidateInjective(name, m, c - 1);
        }
      }
    }
  }

  /** The first `c` attempts are the first `c - 1` and the last one. */
  lemma CandidatesSnoc(name: string, c: nat)
    requires c > 0
    ensures (set m | 0 <= m < c :: Candidate(name, m)) ==
      (set m | 0 <= m < c - 1 :: Candidate(name, m)) + {Candidate(name, c - 1)}
  {
    var all := set m | 0 <= m < c :: Candidate(name, m);
    var before := set m | 0 <= m < c - 1 :: Candidate(name, m);
    forall x | x in all
      ensures x in before + {Candidate(name, c - 1)}
    {
      var m :| 0 <= m < c && x == Candidate(name, m);
      if m < c - 1 {
        assert x in before;
      }
    }
  }

  /** When the first `c` attempts are all taken, at least `c` names are taken. */
  lemma TakenBound(taken: set<string>, name: string, c: nat)
    requires forall m :: 0 <= m < c ==> Candidate(name, m) in taken
    ensures c <= |taken|
  {
    CandidatesCount(name, c);
    var tried := set m | 0 <= m < c :: Candidate(name, m);
    assert tried <= taken;
    SubsetCardinality(tried, taken);
  }

  lemma {:induction false} SubsetCardinality<U>(a: set<U>, b: set<U>)
    requires a <= b
    ensures |a| <= |b|
  {
    if a != {} {
      var x :| x in a;
      SubsetCardinality(a - {x}, b - {x});
    }
  }

  /** The first attempt from `n` on whose name is free. */
  function FirstFree(taken: set<string>, name: string, n: nat): (r: nat)
    requires forall m :: 0 <= m < n ==> Candidate(name, m) in taken
    ensures n <= r && Candidate(name, r) !in taken
    ensures forall m :: 0 <= m < r ==> Candidate(name, m) in taken
    decreases |taken| - n
  {
    if Candidate(name, n) !in taken then n
    else
      TakenBound(taken, name, n + 1);
      FirstFree(taken, name, n + 1)
  }

  /**
   * The name a file is stored under: its own when free, else `base_N.ext` for the smallest `N >= 1` whose
   * name is free.
   */
  function FreeName(taken: set<string>, name: string): (r: string)
    ensures r !in taken
    ensures name !in taken ==> r == name
    ensures name in taken ==>
      exists n: nat :: n >= 1 && r == Candidate(name, n) &&
        forall m :: 1 <= m < n ==> Candidate(name, m) in taken
  {
    Candidate(name, FirstFree(taken, name, 0))
  }

  /** The accumulator: destination names in insertion order, and the file stored under each. */
  datatype Acc<T> = Acc(names: seq<string>, entries: map<string, T>)

  /** Each name is stored once, and the names are exactly the keys. */
  ghost predicate WellFormed<T>(acc: Acc<T>) {
    Seqs.Distinct(acc.names) && forall k :: k in acc.entries <==> k in acc.names
  }

  /** One file stored under its free name, appended after the earlier names. */
  function Place<T>(acc: Acc<T>, file: T, namer: T -> string): Acc<T> {
    var name := FreeName(acc.entries.Keys, namer(file));
    Acc(acc.names + [name], acc.entries[name := file])
  }

  /** Placing one file keeps the accumulator well formed, storing the file under a name not taken before. */
  lemma PlaceStep<T>(acc: Acc<T>, file: T, namer: T -> string)
    requires WellFormed(acc)
    ensures var name := FreeName(acc.entries.Keys, namer(file));
      var r := Place(acc, file, namer);
      WellFormed(r) && name !in acc.entries && name !in acc.names &&
      r.names == acc.names + [name] && r.entries == acc.entries[name := file]
  {
  }

  /**
   * `r` is `acc` with `files` placed after it: the earlier names and entries are kept, one name per file is
   * appended, and the `j`-th appended name stores the `j`-th file.
   */
  ghost predicate PlacedAfter<T>(acc: Acc<T>, r: Acc<T>, files: seq<T>) {
    |r.names| == |acc.names| + |files| && r.names[..|acc.names|] == acc.names &&
    (forall k :: k in acc.entries ==> k in r.entries && r.entries[k] == acc.entries[k]) &&
    (forall j :: 0 <= j < |files| ==>
       r.names[|acc.names| + j] in r.entries && r.entries[r.names[|acc.names| + j]] == files[j])
  }

  /**
   * `mapDestFileNames`: every file placed in turn. The accumulator stays well formed and every earlier entry
   * stays as it was; each file gets a new name of its own, appended in the order of the files.
   */
  function PlaceAll<T>(acc: Acc<T>, files: seq<T>, namer: T -> string): (r: Acc<T>)
    requires WellFormed(acc)
    ensures WellFormed(r) && PlacedAfter(acc, r, files)
  {
    if |files| == 0 then acc
    else
      var init := files[..|files| - 1];
      var prev := PlaceAll(acc, init, namer);
      PlacedNext(acc, prev, files, namer);
      Place(prev, files[|files| - 1], namer)
  }

  /** Placing the last file after the ones before it keeps the accumulator well formed and places it last. */
  lemma PlacedNext<T>(acc: Acc<T>, prev: Acc<T>, files: seq<T>, namer: T -> string)
    requires |files| > 0 && WellFormed(prev) && PlacedAfter(acc, prev, files[..|files| - 1])
    ensures var r := Place(prev, files[|files| - 1], namer);
      WellFormed(r) && PlacedAfter(acc, r, files)
  {
    var init := files[..|files| - 1];
    var file := files[|files| - 1];
    PlaceStep(prev, file, namer);
    PlacedOneMore(acc, prev, init, FreeName(prev.entries.Keys, namer(file)), file);
    assert files == init + [file];
  }

  /** Storing one more file under a name not taken keeps what was placed and places the file after it. */
  lemma PlacedOneMore<T>(acc: Acc<T>, prev: Acc<T>, init: seq<T>, name: string, file: T)
    requires WellFormed(prev) && name !in prev.entries && PlacedAfter(acc, prev, init)
    ensures PlacedAfter(acc, Acc(prev.names + [name], prev.entries[name := file]), init + [file])
  {
    var r := Acc(prev.names + [name], prev.entries[name := file]);
    var files := init + [file];
    assert r.names[..|prev.names|] == prev.names;
    assert r.names[..|acc.names|] == prev.names[..|acc.names|];
    forall j | 0 <= j < |files|
      ensures r.names[|acc.names| + j] in r.entries && r.entries[r.names[|acc.names| + j]] == files[j]
    {
      if j < |init| {
        assert r.names[|acc.names| + j] == prev.names[|acc.names| + j];
        assert prev.names[|acc.names| + j] != name;
        assert files[j] == init[j];
      }
    }
  }

  /** A file whose name is not taken yet keeps it; one whose name is taken is numbered. */
  lemma FirstOccurrenceKeepsName<T>(acc: Acc<T>, file: T, namer: T -> string)
    ensures namer(file) !in acc.entries ==> Place(acc, file, namer).names == acc.names + [namer(file)]
    ensures namer(file) in acc.entries ==>
      var placed := Place(acc, file, namer).names[|acc.names|];
      placed != namer(file) && placed !in acc.entries
  {
  }

  /** `a.jar` taken gives `a_1.jar`; taken with `a_1.jar` too, it gives `a_2.jar`. */
  lemma NumberingExamples()
    ensures FreeName({"a.jar"}, "a.jar") == "a_1.jar"
    ensures FreeName({"a.jar", "a_1.jar"}, "a.jar") == "a_2.jar"
  {
    JarCandidates();
    assert FirstFree({"a.jar"}, "a.jar", 1) == 1;
    assert FirstFree({"a.jar", "a_1.jar"}, "a.jar", 2) == 2;
  }

  /** `a.jar` splits at its dot, so its numbered names are `a_1.jar`, `a_2.jar`, ... */
  lemma JarCandidates()
    ensures Candidate("a.jar", 1) == "a_1.jar" && Candidate("a.jar", 2) == "a_2.jar"
  {
    assert JavaString.LastIndexOf("a.jar", '.') == 1;
    assert "a.jar"[..1] == "a" && "a.jar"[1..] == ".jar";
    assert SplitName("a.jar") == ("a", ".jar");
    assert JavaString.NatToString(1) == "1";
    assert JavaString.NatToString(2) == "2";
  }

  /** A name whose only dot is its first character has its last dot at index 0. */
  lemma OnlyLeadingDot(name: string)
    requires |name| > 0 && name[0] == '.' && '.' !in name[1..]
    ensures JavaString.LastIndexOf(name, '.') == 0
  {
    assert forall i :: 1 <= i < |name| ==> name[i] == name[1..][i - 1];
  }

  /** `.hidden` has no extension: its only dot is its first character, so taken it gives `.hidden_1`. */
  lemma HiddenNumbering()
    ensures FreeName({".hidden"}, ".hidden") == ".hidden_1"
  {
    OnlyLeadingDot(".hidden");
    assert SplitName(".hidden") == (".hidden", "");
    assert JavaString.NatToString(1) == "1";
    assert Candidate(".hidden", 1) == ".hidden_1";
    assert FirstFree({".hidden"}, ".hidden", 1) == 1;
  }

  /** The insertion-ordered map `mapDestFileNames` fills. */
  class DestFileMap<T> {
    var names: seq<string>
    var entries: map<string, T>

    ghost predicate Valid()
      reads this
    {
      WellFormed(Acc(names, entries))
    }

    /** A new, empty `LinkedHashMap`. */
    constructor ()
      ensures Valid() && names == [] && entries == map[]
    {
      names := [];
      entries := map[];
    }

    /** `mapDestFileNames(this, files, namer)` */
    method MapDestFileNames(files: seq<T>, namer: T -> string)
      requires Valid()
      modifies this
      ensures Valid()
      ensures Acc(names, entries) == PlaceAll(Acc(old(names), old(entries)), files, namer)
    {
      ghost var start := Acc(names, entries);
      for i := 0 to |files|
        invariant Acc(names, entries) == PlaceAll(start, files[..i], namer)
        invariant WellFormed(Acc(names, entries))
      {
        assert files[..i + 1][..i] == files[..i];
        var file := files[i];
        var candidate := NextFreeName(entries, namer(file));
        PlaceStep(Acc(names, entries), file, namer);
        names := names + [candidate];
        entries := entries[candidate := file];
      }
      assert files[..|files|] == files;
    }
  }

  /** The inner loop of `mapDestFileNames`: numbered names tried until one is not a key of the map. */
  method NextFreeName<T>(entries: map<string, T>, name: string) returns (candidate: string)
    ensures candidate == FreeName(entries.Keys, name)
  {
    var parts := SplitName(name);
    var siblingCount := 0;
    candidate := name;
    while candidate in entries
      invariant candidate == Candidate(name, siblingCount)
      invariant forall m :: 0 <= m < siblingCount ==> Candidate(name, m) in entries
      decreases |entries.Keys| - siblingCount
    {
      TakenBound(entries.Keys, name, siblingCount + 1);
      siblingCount := siblingCount + 1;
      candidate := parts.0 + "_" + JavaString.NatToString(siblingCount) + parts.1;
    }
    assert FirstFree(entries.Keys, name, siblingCount) == siblingCount;
    FirstFreeFrom(entries.Keys, name, siblingCount);
  }

  /** Starting the search at a later attempt whose predecessors are all taken finds the same name. */
  lemma {:induction false} FirstFreeFrom(taken: set<string>, name: string, n: nat)
    requires forall m :: 0 <= m < n ==> Candidate(name, m) in taken
    ensures FirstFree(taken, name, n) == FirstFree(taken, name, 0)
    decreases n
  {
    if n > 0 {
      FirstFreeFrom(taken, name, n - 1);
    }
  }
}
