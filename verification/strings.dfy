/** Option and the handful of java.lang.String operations the modelled code relies on. */
module Wrappers {
  /** A Java reference that may be null, or an `Optional`. */
  datatype Option<T> = None | Some(value: T) {
    predicate IsSome() { this.Some? }

    function GetOrElse(default: T): T {
      match this
      case Some(v) => v
      case None => default
    }
  }
}

module JavaString {
  /** `s.startsWith(p)` */
  predicate StartsWith(s: string, p: string) {
    |p| <= |s| && s[..|p|] == p
  }

  /** `s.endsWith(p)` */
  predicate EndsWith(s: string, p: string) {
    |p| <= |s| && s[|s| - |p|..] == p
  }

  /** `s.indexOf(c)`: the first index of `c`, or -1. */
  function IndexOf(s: string, c: char): (r: int)
    ensures -1 <= r < |s|
    ensures r == -1 <==> c !in s
    ensures r >= 0 ==> s[r] == c && c !in s[..r]
  {
    if |s| == 0 then -1
    else if s[0] == c then 0
    else
      var k := IndexOf(s[1..], c);
      assert s[1..][..(if k < 0 then 0 else k)] == s[1..][..if k < 0 then 0 else k];
      if k < 0 then -1 else
        assert s[..k + 1] == [s[0]] + s[1..][..k];
        k + 1
  }

  /** `s.lastIndexOf(c)`: the last index of `c`, or -1. */
  function LastIndexOf(s: string, c: char): (r: int)
    ensures -1 <= r < |s|
    ensures r == -1 <==> c !in s
    ensures r >= 0 ==> s[r] == c && c !in s[r + 1..]
  {
    if |s| == 0 then -1
    else if s[|s| - 1] == c then |s| - 1
    else
      var k := LastIndexOf(s[..|s| - 1], c);
      LastIndexOfStep(s, c, k);
      k
  }

  /** A last index in all but the final character, which is not `c`, is the last index in the whole. */
  lemma LastIndexOfStep(s: string, c: char, k: int)
    requires |s| > 0 && s[|s| - 1] != c
    requires -1 <= k < |s| - 1
    requires k == -1 <==> c !in s[..|s| - 1]
    requires k >= 0 ==> s[k] == c && c !in s[..|s| - 1][k + 1..]
    ensures k == -1 <==> c !in s
    ensures k >= 0 ==> c !in s[k + 1..]
  {
    var init := s[..|s| - 1];
    if c in s {
      var i :| 0 <= i < |s| && s[i] == c;
      assert i < |s| - 1 && init[i] == c;
    }
    if k >= 0 {
      forall j | k + 1 <= j < |s| - 1
        ensures s[j] != c
      {
        assert init[k + 1..][j - k - 1] == s[j];
      }
      var tail := s[k + 1..];
      assert forall j :: 0 <= j < |tail| ==> tail[j] == s[k + 1 + j];
    }
  }

  /** Characters that `String.trim` removes: code points up to and including the space. */
  predicate IsTrimmed(c: char) { c <= ' ' }

  function TrimStart(s: string): (r: string)
    ensures |r| <= |s| && r == s[|s| - |r|..]
    ensures r == [] || !IsTrimmed(r[0])
    ensures forall i :: 0 <= i < |s| - |r| ==> IsTrimmed(s[i])
  {
    if |s| > 0 && IsTrimmed(s[0]) then TrimStart(s[1..]) else s
  }

  function TrimEnd(s: string): (r: string)
    ensures |r| <= |s| && r == s[..|r|]
    ensures r == [] || !IsTrimmed(r[|r| - 1])
    ensures forall i :: |r| <= i < |s| ==> IsTrimmed(s[i])
  {
    if |s| > 0 && IsTrimmed(s[|s| - 1]) then TrimEnd(s[..|s| - 1]) else s
  }

  /** `s.trim()`: drops leading and trailing characters up to ' '. */
  function Trim(s: string): (r: string)
    ensures |r| <= |s|
    ensures r == [] || (!IsTrimmed(r[0]) && !IsTrimmed(r[|r| - 1]))
  {
    TrimEnd(TrimStart(s))
  }

  /** A string trims to nothing exactly when every character of it is trimmed. */
  lemma TrimEmptyIff(s: string)
    ensures Trim(s) == "" <==> forall i :: 0 <= i < |s| ==> IsTrimmed(s[i])
  {
    var t := TrimStart(s);
    if t != "" {
      assert !IsTrimmed(s[|s| - |t|]);
    }
  }

  /** Every piece of `s` between occurrences of `c`, empties included (`s.split(c, -1)`). */
  function SplitAll(s: string, c: char): (r: seq<string>)
    ensures |r| >= 1
    ensures forall i :: 0 <= i < |r| ==> c !in r[i]
    decreases |s|
  {
    var k := IndexOf(s, c);
    if k < 0 then [s] else [s[..k]] + SplitAll(s[k + 1..], c)
  }

  /** `String.join(c, parts)` */
  function Join(c: char, parts: seq<string>): string {
    if |parts| == 0 then ""
    else if |parts| == 1 then parts[0]
    else parts[0] + [c] + Join(c, parts[1..])
  }

  /** Joining the pieces of a split with the separator gives the string back. */
  lemma {:induction false} JoinSplitAll(s: string, c: char)
    ensures Join(c, SplitAll(s, c)) == s
    decreases |s|
  {
    var k := IndexOf(s, c);
    if k >= 0 {
      var head, tail := s[..k], s[k + 1..];
      var rest := SplitAll(tail, c);
      assert SplitAll(s, c) == [head] + rest;
      JoinSplitAll(tail, c);
      JoinCons(c, head, rest);
      Around(s, k);
    }
  }

  /** A string is what comes before an index, the character there and what comes after. */
  lemma Around(s: string, k: nat)
    requires k < |s|
    ensures s == s[..k] + [s[k]] + s[k + 1..]
  {
  }

  /** A join of two or more parts is the first part, the separator and the join of the rest. */
  lemma JoinCons(c: char, head: string, rest: seq<string>)
    requires |rest| >= 1
    ensures Join(c, [head] + rest) == head + [c] + Join(c, rest)
  {
    assert ([head] + rest)[1..] == rest;
  }

  /** Neither starts nor ends with a character that `trim` removes. */
  predicate Unpadded(s: string) {
    s == [] || (!IsTrimmed(s[0]) && !IsTrimmed(s[|s| - 1]))
  }

  /** The strings that are their own trim are exactly the unpadded ones. */
  lemma TrimUntrimmed(s: string)
    ensures Trim(s) == s <==> Unpadded(s)
  {
  }

  /** Trimming adds no character: one absent from a string is absent from its trim. */
  lemma TrimKeepsOut(s: string, c: char)
    requires c !in s
    ensures c !in Trim(s)
  {
    var t := TrimStart(s);
    SliceKeepsOut(s, c, |s| - |t|, |s|);
    SliceKeepsOut(t, c, 0, |TrimEnd(t)|);
  }

  /** A slice holds no character its string does not. */
  lemma SliceKeepsOut(s: string, c: char, lo: nat, hi: nat)
    requires c !in s && lo <= hi <= |s|
    ensures c !in s[lo..hi]
  {
    assert forall i :: 0 <= i < hi - lo ==> s[lo..hi][i] == s[lo + i];
  }

  /** Each part trimmed, the blank ones dropped, the rest kept in order. */
  function TrimmedNonBlank(parts: seq<string>): (r: seq<string>)
    ensures |r| <= |parts|
  {
    if |parts| == 0 then []
    else
      var t := Trim(parts[|parts| - 1]);
      TrimmedNonBlank(parts[..|parts| - 1]) + (if t != "" then [t] else [])
  }

  /** `r` holds the non-blank trims of `parts` and nothing else. */
  ghost predicate KeepsNonBlankTrims(parts: seq<string>, r: seq<string>) {
    (forall i :: 0 <= i < |r| ==> r[i] != "" && Unpadded(r[i]) && exists p :: p in parts && Trim(p) == r[i]) &&
    (forall p :: p in parts && Trim(p) != "" ==> Trim(p) in r)
  }

  /** What is kept is the non-blank trims of the parts, and every non-blank trim is kept. */
  lemma {:induction false} TrimmedNonBlankMembers(parts: seq<string>)
    ensures KeepsNonBlankTrims(parts, TrimmedNonBlank(parts))
  {
    if |parts| > 0 {
      var init, last := parts[..|parts| - 1], parts[|parts| - 1];
      TrimmedNonBlankMembers(init);
      assert parts == init + [last];
      var t := Trim(last);
      KeepsNonBlankTrimsSnoc(init, last, TrimmedNonBlank(init), if t != "" then [t] else []);
    }
  }

  lemma KeepsNonBlankTrimsSnoc(init: seq<string>, last: string, r: seq<string>, extra: seq<string>)
    requires KeepsNonBlankTrims(init, r)
    requires extra == if Trim(last) != "" then [Trim(last)] else []
    ensures KeepsNonBlankTrims(init + [last], r + extra)
  {
    var parts, r' := init + [last], r + extra;
    forall i | 0 <= i < |r'|
      ensures r'[i] != "" && Unpadded(r'[i]) && exists p :: p in parts && Trim(p) == r'[i]
    {
      if i < |r| {
        var p :| p in init && Trim(p) == r[i];
        assert p in parts && r'[i] == r[i];
      } else {
        TrimUntrimmed(last);
        assert last in parts;
      }
    }
    forall p | p in parts && Trim(p) != ""
      ensures Trim(p) in r'
    {
      if p in init {
        assert Trim(p) in r;
      }
    }
  }

  /** The pieces of `s.split(c)`, trimmed, the blank ones dropped: the entries of a separated list. */
  function TrimmedPieces(s: string, c: char): (r: seq<string>)
    ensures forall i :: 0 <= i < |r| ==> r[i] != "" && c !in r[i]
  {
    var parts := Split(s, c);
    var r := TrimmedNonBlank(parts);
    TrimmedNonBlankMembers(parts);
    assert forall i :: 0 <= i < |r| ==> c !in r[i] by {
      forall i | 0 <= i < |r| ensures c !in r[i] {
        var p :| p in parts && Trim(p) == r[i];
        TrimKeepsOut(p, c);
      }
    }
    r
  }

  /** The first `c` in `a + [c] + b` is the one after `a` when `a` has none. */
  lemma IndexOfAfter(a: string, c: char, b: string)
    requires c !in a
    ensures IndexOf(a + [c] + b, c) == |a|
  {
    var s := a + [c] + b;
    assert forall i :: 0 <= i < |a| ==> s[i] == a[i];
    assert s[|a|] == c;
  }

  /** A join starts with its first part and ends with its last. */
  lemma {:induction false} JoinEnds(c: char, parts: seq<string>)
    requires |parts| >= 1
    ensures StartsWith(Join(c, parts), parts[0])
    ensures EndsWith(Join(c, parts), parts[|parts| - 1])
    decreases |parts|
  {
    if |parts| > 1 {
      JoinEnds(c, parts[1..]);
      var rest := Join(c, parts[1..]);
      var last := parts[|parts| - 1];
      assert (parts[0] + [c] + rest)[|parts[0] + [c] + rest| - |last|..] == rest[|rest| - |last|..];
    }
  }

  /** A join holds no character, other than the separator, that none of its parts holds. */
  lemma {:induction false} JoinKeepsOut(c: char, parts: seq<string>, x: char)
    requires x != c && forall i :: 0 <= i < |parts| ==> x !in parts[i]
    ensures x !in Join(c, parts)
    decreases |parts|
  {
    if |parts| > 1 {
      JoinKeepsOut(c, parts[1..], x);
    }
  }

  /** Splitting a join at its separator gives back the parts, when no part contains the separator. */
  lemma {:induction false} SplitAllJoin(parts: seq<string>, c: char)
    requires |parts| >= 1 && forall i :: 0 <= i < |parts| ==> c !in parts[i]
    ensures SplitAll(Join(c, parts), c) == parts
    decreases |parts|
  {
    if |parts| > 1 {
      var first := parts[0];
      var rest := Join(c, parts[1..]);
      var s := Join(c, parts);
      assert s == first + [c] + rest;
      IndexOfAfter(first, c, rest);
      assert s[..|first|] == first;
      assert s[|first| + 1..] == rest;
      assert SplitAll(s, c) == [first] + SplitAll(rest, c);
      SplitAllJoin(parts[1..], c);
      assert parts == [first] + parts[1..];
    }
  }

  function DropTrailingEmpty(parts: seq<string>): (r: seq<string>)
    ensures |r| <= |parts| && r == parts[..|r|]
    ensures r == [] || r[|r| - 1] != ""
    ensures forall i :: |r| <= i < |parts| ==> parts[i] == ""
  {
    if |parts| > 0 && parts[|parts| - 1] == "" then DropTrailingEmpty(parts[..|parts| - 1]) else parts
  }

  /**
   * `s.split(c)` for a one-character, non-meta separator: the input itself when `c` does not occur,
   * otherwise every piece with the trailing empty pieces removed.
   */
  function Split(s: string, c: char): (r: seq<string>)
    ensures c !in s ==> r == [s]
    ensures forall i :: 0 <= i < |r| ==> c !in r[i]
    ensures r == [] || r[|r| - 1] != "" || c !in s
  {
    if c !in s then [s] else DropTrailingEmpty(SplitAll(s, c))
  }

  /** `split` undoes `join` when no part contains the separator and the last part is not empty. */
  lemma SplitJoin(parts: seq<string>, c: char)
    requires |parts| >= 1 && forall i :: 0 <= i < |parts| ==> c !in parts[i]
    requires parts[|parts| - 1] != ""
    ensures Split(Join(c, parts), c) == parts
  {
    if |parts| > 1 {
      var rest := Join(c, parts[1..]);
      assert Join(c, parts) == parts[0] + [c] + rest;
      assert Join(c, parts)[|parts[0]|] == c;
      SplitAllJoin(parts, c);
    }
  }

  /** `s.split(c, 2)`: the text before the first `c` and everything after it. */
  function SplitFirst(s: string, c: char): (r: seq<string>)
    ensures c !in s ==> r == [s]
    ensures c in s ==> |r| == 2 && c !in r[0] && r[0] + [c] + r[1] == s
  {
    var k := IndexOf(s, c);
    if k < 0 then [s] else
      assert s == s[..k] + [c] + s[k + 1..];
      [s[..k], s[k + 1..]]
  }

  /** `String.compareTo`: the difference of the first differing characters, else of the lengths. */
  function CompareStrings(a: string, b: string): (c: int)
    ensures c == 0 <==> a == b
  {
    if |a| == 0 || |b| == 0 then |a| - |b|
    else if a[0] != b[0] then a[0] as int - b[0] as int
    else
      var c := CompareStrings(a[1..], b[1..]);
      assert a == [a[0]] + a[1..] && b == [b[0]] + b[1..];
      c
  }

  /** `String.compareTo` is antisymmetric. */
  lemma {:induction false} CompareStringsAntisymmetric(a: string, b: string)
    ensures CompareStrings(a, b) == -CompareStrings(b, a)
  {
    if |a| > 0 && |b| > 0 && a[0] == b[0] {
      CompareStringsAntisymmetric(a[1..], b[1..]);
    }
  }

  /** `String.compareTo` is transitive. */
  lemma {:induction false} CompareStringsTransitive(a: string, b: string, c: string)
    requires CompareStrings(a, b) < 0 && CompareStrings(b, c) < 0
    ensures CompareStrings(a, c) < 0
  {
    if |a| > 0 && |b| > 0 && |c| > 0 && a[0] == b[0] && b[0] == c[0] {
      CompareStringsTransitive(a[1..], b[1..], c[1..]);
    }
  }

  /** Lower-cases ASCII letters; other characters are unchanged. */
  function ToLowerChar(c: char): char {
    if 'A' <= c <= 'Z' then (c as int + 32) as char else c
  }

  function ToUpperChar(c: char): char {
    if 'a' <= c <= 'z' then (c as int - 32) as char else c
  }

  function ToLower(s: string): (r: string)
    ensures |r| == |s|
    ensures forall i :: 0 <= i < |s| ==> r[i] == ToLowerChar(s[i])
  {
    if s == [] then [] else [ToLowerChar(s[0])] + ToLower(s[1..])
  }

  function ToUpper(s: string): (r: string)
    ensures |r| == |s|
    ensures forall i :: 0 <= i < |s| ==> r[i] == ToUpperChar(s[i])
  {
    if s == [] then [] else [ToUpperChar(s[0])] + ToUpper(s[1..])
  }

  /** `a.equalsIgnoreCase(b)`, over ASCII letters. */
  predicate EqualsIgnoreCase(a: string, b: string) {
    |a| == |b| && forall i :: 0 <= i < |a| ==> ToLowerChar(a[i]) == ToLowerChar(b[i])
  }

  /** `s.replace(from, to)` for characters. */
  function ReplaceChar(s: string, from: char, to: char): (r: string)
    ensures |r| == |s|
    ensures forall i :: 0 <= i < |s| ==> r[i] == (if s[i] == from then to else s[i])
  {
    if s == [] then [] else [if s[0] == from then to else s[0]] + ReplaceChar(s[1..], from, to)
  }

  function DigitChar(d: nat): char
    requires d < 10
  {
    ('0' as int + d) as char
  }

  /** `Integer.toString(n)` for a non-negative `n`. */
  function NatToString(n: nat): (r: string)
    ensures |r| >= 1
    ensures forall i :: 0 <= i < |r| ==> '0' <= r[i] <= '9'
    decreases n
  {
    if n < 10 then [DigitChar(n)] else NatToString(n / 10) + [DigitChar(n % 10)]
  }

  /** The value of a string of decimal digits. */
  function ParseDigits(s: string): nat
    requires forall i :: 0 <= i < |s| ==> '0' <= s[i] <= '9'
  {
    if s == [] then 0 else ParseDigits(s[..|s| - 1]) * 10 + (s[|s| - 1] as int - '0' as int)
  }

  lemma {:induction false} ParseNatToString(n: nat)
    ensures ParseDigits(NatToString(n)) == n
    decreases n
  {
    if n >= 10 {
      ParseNatToString(n / 10);
      var s := NatToString(n);
      assert s[..|s| - 1] == NatToString(n / 10);
    }
  }

  /** Distinct numbers print differently. */
  lemma NatToStringInjective(a: nat, b: nat)
    requires NatToString(a) == NatToString(b)
    ensures a == b
  {
    ParseNatToString(a);
    ParseNatToString(b);
  }

  /** A list's `toString`: the items between brackets, separated by ", ". */
  function ListText(names: seq<string>): string {
    "[" + JoinComma(names) + "]"
  }

  function JoinComma(names: seq<string>): string {
    if |names| == 0 then ""
    else if |names| == 1 then names[0]
    else names[0] + ", " + JoinComma(names[1..])
  }
}
